/** The part of the memory store that holds grants, attempts, credentials and challenges, updated in place. */
module DeviceStore {
  import opened Common
  import opened Batches
  import opened Devices
  import opened DeviceInvariants
  import opened DeviceSteps
  import opened DeviceOutcomes
  import opened DeviceEffects
  import opened DeviceDecisions
  import opened DeviceProofs
  import Identity
  import opened IdentityEpochs

  class MemoryStore {
    var users: seq<Identity.User>
    var screens: seq<Screen>
    var deviceCredentials: seq<Credential>
    var deviceAuthChallenges: seq<Challenge>
    var pairings: seq<Grant>
    var pairingAttempts: seq<Attempt>
    var usedDeviceKeyIds: set<Id>
    var enrollmentRecords: seq<EnrollmentRecord>

    function Contents(): State
      reads this
    {
      State(users, screens, deviceCredentials, deviceAuthChallenges, pairings, pairingAttempts, usedDeviceKeyIds,
            enrollmentRecords)
    }

    ghost predicate Valid(now: int)
      reads this
    {
      Inv(Contents(), now)
    }

    /** The store before anything has happened to its screens. */
    constructor (users: seq<Identity.User>)
      requires UniqueRows(users)
      ensures Contents() == State(users, [], [], [], [], [], {}, [])
      ensures forall now :: Valid(now)
    {
      this.users, screens, deviceCredentials, deviceAuthChallenges := users, [], [], [];
      pairings, pairingAttempts, usedDeviceKeyIds, enrollmentRecords := [], [], {}, [];
    }

    method CreateScreen(org: Id, ghost now: int) returns (screen: Id)
      requires Valid(now)
      modifies `screens
      ensures Contents() == ScreenCreated(old(Contents()), org) && screen == |old(screens)|
      ensures Valid(now) && HasScreen(screens, org, screen)
    {
      hide Inv;
      ScreenCreatedKeepsInv(Contents(), org, now);
      screen := |screens|;
      screens := screens + [Screen(org, 0, None, None, None, false)];
    }

    // ---------------------------------------------------------------- shared loops

    /** Cancels the attempts of one revoked grant. */
    method CancelAttempts(grant: Id, cancel: Cancel)
      modifies `pairingAttempts
      ensures |pairingAttempts| == |old(pairingAttempts)|
      ensures forall i | 0 <= i < |pairingAttempts| ::
                var a := old(pairingAttempts)[i];
                pairingAttempts[i] == if a.grant == grant && !a.pruned && CancelledBy(cancel, a)
                                      then a.(cancelled := true) else a
    {
      var before := pairingAttempts;
      for j := 0 to |before|
        modifies `pairingAttempts
        invariant |pairingAttempts| == |before|
        invariant forall i | 0 <= i < |before| ::
                    pairingAttempts[i] == if i < j && before[i].grant == grant && !before[i].pruned
                                             && CancelledBy(cancel, before[i])
                                          then before[i].(cancelled := true) else before[i]
      {
        var attempt := pairingAttempts[j];
        if attempt.grant == grant && !attempt.pruned && CancelledBy(cancel, attempt) {
          pairingAttempts := pairingAttempts[j := attempt.(cancelled := true)];
        }
      }
    }

    /** Revokes what the selector picks out, so that it picks out nothing any more. */
    method RevokeGrants(sel: Selector, cancel: Cancel)
      modifies `pairings, `pairingAttempts
      ensures Contents() == RevokedState(old(Contents()), sel, cancel)
      ensures NoneSelected(pairings, sel)
      ensures forall now | old(Valid(now)) :: Valid(now)
    {
      hide Selects, CancelledBy, Inv, NoneSelected;
      ghost var s := Contents();
      NoneSelectedAfter(s, sel, cancel);
      forall now | Inv(s, now) ensures Inv(RevokedState(s, sel, cancel), now) { RevokingKeepsInv(s, sel, cancel, now); }
      var grants, attempts := pairings, pairingAttempts;
      for k := 0 to |grants|
        modifies `pairings, `pairingAttempts
        invariant |pairings| == |grants| && |pairingAttempts| == |attempts|
        invariant forall i | 0 <= i < |grants| ::
                    pairings[i] == if i < k && Selects(sel, i, grants[i]) then grants[i].(status := Revoked)
                                   else grants[i]
        invariant forall i | 0 <= i < |attempts| ::
                    pairingAttempts[i] == if attempts[i].grant < k && LosesGrant(grants, sel, cancel, attempts[i])
                                          then attempts[i].(cancelled := true) else attempts[i]
      {
        var grant := pairings[k];
        if Selects(sel, k, grant) {
          pairings := pairings[k := grant.(status := Revoked)];
          CancelAttempts(k, cancel);
        }
      }
      assert pairings == RevokedGrants(grants, sel);
      assert pairingAttempts == CancelledAttempts(attempts, grants, sel, cancel);
    }

    /** Consumes the open challenges of one credential. */
    method InvalidateChallenges(credential: Id, now: int)
      modifies `deviceAuthChallenges
      ensures |deviceAuthChallenges| == |old(deviceAuthChallenges)|
      ensures forall i | 0 <= i < |deviceAuthChallenges| ::
                var c := old(deviceAuthChallenges)[i];
                deviceAuthChallenges[i] == if c.credential == credential && !c.pruned && c.consumedAt.None?
                                              && c.expiresAt > now
                                           then c.(consumedAt := Some(now)) else c
    {
      var before := deviceAuthChallenges;
      for j := 0 to |before|
        modifies `deviceAuthChallenges
        invariant |deviceAuthChallenges| == |before|
        invariant forall i | 0 <= i < |before| ::
                    deviceAuthChallenges[i] == if i < j && before[i].credential == credential && !before[i].pruned
                                                  && before[i].consumedAt.None? && before[i].expiresAt > now
                                               then before[i].(consumedAt := Some(now)) else before[i]
      {
        var challenge := deviceAuthChallenges[j];
        if challenge.credential == credential && !challenge.pruned && challenge.consumedAt.None?
           && challenge.expiresAt > now
        {
          deviceAuthChallenges := deviceAuthChallenges[j := challenge.(consumedAt := Some(now))];
        }
      }
    }

    lemma {:induction false} DetachedAnswerNothing(s: State, p: Picked, now: int)
      ensures var t := DetachedState(s, p, now);
              forall i: nat | i < |s.credentials| && Picks(p, i, s.credentials[i]) ::
                t.credentials[i].detached && forall activity :: LiveChallenges(t.challenges, i, activity, now) == {}
    {
      hide Picks;
    }

    /** Detaches the credentials picked, and consumes the challenges they could still answer. */
    method DetachCredentials(p: Picked, now: int)
      modifies `deviceCredentials, `deviceAuthChallenges
      ensures Contents() == DetachedState(old(Contents()), p, now)
      ensures forall i | 0 <= i < |deviceCredentials| && Picks(p, i, old(deviceCredentials)[i]) ::
                deviceCredentials[i].detached && forall activity ::
                  LiveChallenges(deviceAuthChallenges, i, activity, now) == {}
      ensures forall t | old(Valid(t)) :: Valid(t)
    {
      hide Picks, Inv;
      ghost var s := Contents();
      DetachedAnswerNothing(s, p, now);
      forall t | Inv(s, t) ensures Inv(DetachedState(s, p, now), t) { DetachedKeepsInv(s, p, now, t); }
      var credentials, challenges := deviceCredentials, deviceAuthChallenges;
      for k := 0 to |credentials|
        modifies `deviceCredentials, `deviceAuthChallenges
        invariant |deviceCredentials| == |credentials| && |deviceAuthChallenges| == |challenges|
        invariant forall i | 0 <= i < |credentials| ::
                    deviceCredentials[i] == if i < k && Picks(p, i, credentials[i])
                                            then DetachedCredential(credentials[i], now) else credentials[i]
        invariant forall i | 0 <= i < |challenges| ::
                    deviceAuthChallenges[i] == if challenges[i].credential < k
                                                  && Invalidated(credentials, p, challenges[i], now)
                                               then challenges[i].(consumedAt := Some(now)) else challenges[i]
      {
        var credential := deviceCredentials[k];
        if Picks(p, k, credential) {
          var revokedAt := if credential.revokedAt.Some? then credential.revokedAt else Some(now);
          deviceCredentials := deviceCredentials[k := credential.(detached := true, revokedAt := revokedAt)];
          InvalidateChallenges(k, now);
        }
      }
      assert deviceCredentials == DetachedCredentials(credentials, p, now);
      assert deviceAuthChallenges == InvalidatedChallenges(challenges, credentials, p, now);
    }

    // ---------------------------------------------------------------- maintenance

    lemma {:induction false} GrantsAreOrdered(gs: seq<Grant>)
      ensures StrictOrder((i: nat, j: nat) => i < |gs| && j < |gs| && ExpiresFirst(gs, i, j), |gs|)
    {
    }

    lemma {:induction false} RecordsAreOrdered(rs: seq<EnrollmentRecord>)
      ensures StrictOrder((i: nat, j: nat) => i < |rs| && j < |rs| && RecordFirst(rs, i, j), |rs|)
    {
    }

    lemma {:induction false} ChallengesAreOrdered(cs: seq<Challenge>)
      ensures StrictOrder((i: nat, j: nat) => i < |cs| && j < |cs| && ChallengeFirst(cs, i, j), |cs|)
    {
    }

    /** Closes the first hundred of the organization's expired grants, by expiry. */
    method ExpireGrants(org: Id, now: int)
      modifies `pairings
      ensures pairings == ExpiredGrants(old(pairings), org, now)
      ensures FirstExpire(old(pairings), pairings, org, now)
    {
      hide ExpiresFirst, Expirable, FirstExpire, ExpiresNow, StrictOrder, Ahead;
      FirstAreExpired(pairings, org, now);
      var before := pairings;
      GrantsAreOrdered(before);
      var order := (i: nat, j: nat) => i < |before| && j < |before| && ExpiresFirst(before, i, j);
      var eligible := (i: nat) => i < |before| && Expirable(before[i], org, now);
      var batch := Batch(|before|, eligible, order, BATCH);
      BatchExpires(before, org, now, batch);
      for k := 0 to |batch|
        modifies `pairings
        invariant |pairings| == |before|
        invariant forall i | 0 <= i < |before| ::
                    pairings[i] == if i in batch[..k] then before[i].(status := Expired) else before[i]
      {
        pairings := pairings[batch[k] := before[batch[k]].(status := Expired)];
        assert batch[..k + 1] == batch[..k] + [batch[k]];
      }
      assert batch[..|batch|] == batch;
      assert pairings == ExpiredGrants(before, org, now);
    }

    lemma {:induction false} BatchExpires(gs: seq<Grant>, org: Id, now: int, batch: seq<nat>)
      requires var order := (i: nat, j: nat) => i < |gs| && j < |gs| && ExpiresFirst(gs, i, j);
               var eligible := (i: nat) => i < |gs| && Expirable(gs[i], org, now);
               forall i | 0 <= i < |gs| :: i in batch <==> eligible(i) && |Ahead(|gs|, eligible, order, i)| < BATCH
      ensures forall i | 0 <= i < |gs| :: i in batch <==> ExpiresNow(gs, org, now, i)
    {
      hide ExpiresFirst, Expirable;
      var order := (i: nat, j: nat) => i < |gs| && j < |gs| && ExpiresFirst(gs, i, j);
      var eligible := (i: nat) => i < |gs| && Expirable(gs[i], org, now);
      forall i | 0 <= i < |gs| ensures i in batch <==> ExpiresNow(gs, org, now, i) {
        assert Ahead(|gs|, eligible, order, i)
               == set j | 0 <= j < |gs| && Expirable(gs[j], org, now) && ExpiresFirst(gs, j, i);
      }
    }

    /** The first hundred of the organization's closed grants that expired a retention period ago. */
    method GrantsToRemove(org: Id, now: int) returns (removed: set<nat>)
      ensures forall i: nat | i < |pairings| :: i in removed <==> RemovedNow(pairings, org, now, i)
      ensures forall i | i in removed :: i < |pairings|
    {
      hide ExpiresFirst, Removable;
      var grants := pairings;
      GrantsAreOrdered(grants);
      var order := (i: nat, j: nat) => i < |grants| && j < |grants| && ExpiresFirst(grants, i, j);
      var eligible := (i: nat) => i < |grants| && Removable(grants[i], org, now);
      var batch := Batch(|grants|, eligible, order, BATCH);
      forall i: nat | i < |grants| ensures i in batch <==> RemovedNow(grants, org, now, i) {
        assert Ahead(|grants|, eligible, order, i)
               == set j | 0 <= j < |grants| && Removable(grants[j], org, now) && ExpiresFirst(grants, j, i);
      }
      removed := set i | i in batch;
    }

    method FilterGrants(removed: set<nat>)
      modifies `pairings
      ensures |pairings| == |old(pairings)|
      ensures forall i: nat | i < |pairings| ::
                pairings[i] == if i in removed then old(pairings)[i].(pruned := true) else old(pairings)[i]
    {
      var before := pairings;
      for k := 0 to |before|
        modifies `pairings
        invariant |pairings| == |before|
        invariant forall i: nat | i < |before| ::
                    pairings[i] == if i < k && i in removed then before[i].(pruned := true) else before[i]
      {
        if k in removed {
          pairings := pairings[k := pairings[k].(pruned := true)];
        }
      }
    }

    method FilterAttempts(removed: set<nat>)
      modifies `pairingAttempts
      ensures |pairingAttempts| == |old(pairingAttempts)|
      ensures forall i: nat | i < |pairingAttempts| ::
                var a := old(pairingAttempts)[i];
                pairingAttempts[i] == if a.grant in removed then a.(pruned := true) else a
    {
      var before := pairingAttempts;
      for k := 0 to |before|
        modifies `pairingAttempts
        invariant |pairingAttempts| == |before|
        invariant forall i: nat | i < |before| ::
                    pairingAttempts[i] == if i < k && before[i].grant in removed then before[i].(pruned := true)
                                          else before[i]
      {
        if before[k].grant in removed {
          pairingAttempts := pairingAttempts[k := pairingAttempts[k].(pruned := true)];
        }
      }
    }

    /** Removes closed grants that expired a retention period ago, with their attempts. */
    method RemoveGrants(org: Id, now: int)
      modifies `pairings, `pairingAttempts
      ensures pairings == KeptGrants(old(pairings), org, now)
      ensures pairingAttempts == KeptAttempts(old(pairingAttempts), old(pairings), org, now)
      ensures FirstRemoved(old(pairings), pairings, old(pairingAttempts), pairingAttempts, org, now)
    {
      hide RemovedNow, FirstRemoved;
      FirstAreRemoved(pairings, pairingAttempts, org, now);
      var removed := GrantsToRemove(org, now);
      FilterGrants(removed);
      FilterAttempts(removed);
      assert pairings == KeptGrants(old(pairings), org, now);
      assert pairingAttempts == KeptAttempts(old(pairingAttempts), old(pairings), org, now);
    }

    lemma {:induction false} BatchIsForgotten(
        rs: seq<EnrollmentRecord>, org: Id, now: int, keep: Option<Id>, batch: seq<nat>)
      requires var order := (i: nat, j: nat) => i < |rs| && j < |rs| && RecordFirst(rs, i, j);
               var eligible := (i: nat) => i < |rs| && Forgettable(rs[i], org, now, keep);
               forall i | 0 <= i < |rs| :: i in batch <==> eligible(i) && |Ahead(|rs|, eligible, order, i)| < BATCH
      ensures forall i | 0 <= i < |rs| :: i in batch <==> ForgottenNow(rs, org, now, keep, i)
    {
      hide RecordFirst, Forgettable;
      var order := (i: nat, j: nat) => i < |rs| && j < |rs| && RecordFirst(rs, i, j);
      var eligible := (i: nat) => i < |rs| && Forgettable(rs[i], org, now, keep);
      forall i | 0 <= i < |rs| ensures i in batch <==> ForgottenNow(rs, org, now, keep, i) {
        assert Ahead(|rs|, eligible, order, i)
               == set j | 0 <= j < |rs| && Forgettable(rs[j], org, now, keep) && RecordFirst(rs, j, i);
      }
    }

    /** Drops the responses of the first hundred of the organization's expired records, but not of the one in use. */
    method ForgetResponses(org: Id, now: int, keep: Option<Id>)
      modifies `enrollmentRecords
      ensures enrollmentRecords == KeptRecords(old(enrollmentRecords), org, now, keep)
      ensures FirstForgotten(old(enrollmentRecords), enrollmentRecords, org, now, keep)
    {
      hide RecordFirst, Forgettable, FirstForgotten, ForgottenNow, StrictOrder, Ahead;
      FirstAreForgotten(enrollmentRecords, org, now, keep);
      var before := enrollmentRecords;
      RecordsAreOrdered(before);
      var order := (i: nat, j: nat) => i < |before| && j < |before| && RecordFirst(before, i, j);
      var eligible := (i: nat) => i < |before| && Forgettable(before[i], org, now, keep);
      var batch := Batch(|before|, eligible, order, BATCH);
      BatchIsForgotten(before, org, now, keep, batch);
      for k := 0 to |batch|
        modifies `enrollmentRecords
        invariant |enrollmentRecords| == |before|
        invariant forall i | 0 <= i < |before| ::
                    enrollmentRecords[i] == if i in batch[..k] then before[i].(response := None) else before[i]
      {
        enrollmentRecords := enrollmentRecords[batch[k] := before[batch[k]].(response := None)];
        assert batch[..k + 1] == batch[..k] + [batch[k]];
      }
      assert batch[..|batch|] == batch;
      assert enrollmentRecords == KeptRecords(before, org, now, keep);
    }

    /** The first hundred challenges that expired a day ago. */
    method ChallengesToDrop(now: int) returns (dropped: set<nat>)
      ensures forall i: nat | i < |deviceAuthChallenges| :: i in dropped <==> DroppedNow(deviceAuthChallenges, now, i)
    {
      hide ChallengeFirst, Old;
      var challenges := deviceAuthChallenges;
      ChallengesAreOrdered(challenges);
      var order := (i: nat, j: nat) => i < |challenges| && j < |challenges| && ChallengeFirst(challenges, i, j);
      var eligible := (i: nat) => i < |challenges| && Old(challenges[i], now);
      var batch := Batch(|challenges|, eligible, order, BATCH);
      forall i: nat | i < |challenges| ensures i in batch <==> DroppedNow(challenges, now, i) {
        assert Ahead(|challenges|, eligible, order, i)
               == set j | 0 <= j < |challenges| && Old(challenges[j], now) && ChallengeFirst(challenges, j, i);
      }
      dropped := set i | i in batch;
    }

    /** Drops challenges that expired a day ago. */
    method DropChallenges(now: int)
      modifies `deviceAuthChallenges
      ensures deviceAuthChallenges == KeptChallenges(old(deviceAuthChallenges), now)
      ensures FirstDropped(old(deviceAuthChallenges), deviceAuthChallenges, now)
    {
      hide DroppedNow, FirstDropped;
      FirstAreDropped(deviceAuthChallenges, now);
      var dropped := ChallengesToDrop(now);
      var before := deviceAuthChallenges;
      for k := 0 to |before|
        modifies `deviceAuthChallenges
        invariant |deviceAuthChallenges| == |before|
        invariant forall i: nat | i < |before| ::
                    deviceAuthChallenges[i] == if i < k && i in dropped then before[i].(pruned := true) else before[i]
      {
        if k in dropped {
          deviceAuthChallenges := deviceAuthChallenges[k := deviceAuthChallenges[k].(pruned := true)];
        }
      }
      assert deviceAuthChallenges == KeptChallenges(before, now);
    }

    /**
     Closes what has expired, removes what was closed long ago and forgets old responses. What is
     pending and unexpired stays with its attempts, and so does everything of other organizations;
     the codes that are taken are the same as before.
     */
    method PruneDeviceEnrollmentAuthority(org: Id, now: int, keep: Option<Id>)
      modifies `pairings, `pairingAttempts, `enrollmentRecords
      ensures Contents() == PrunedState(old(Contents()), org, now, keep)
      ensures Pruned(old(Contents()), Contents(), org, now, keep)
      ensures forall t | old(Valid(t)) :: Valid(t)
      ensures |pairings| == |old(pairings)| && |pairingAttempts| == |old(pairingAttempts)|
      ensures forall i | 0 <= i < |pairings| ::
                var g := old(pairings)[i];
                g.org != org || (CodeLive(g, now) && !g.pruned) ==> pairings[i] == g
      ensures forall i | 0 <= i < |pairingAttempts| ::
                var a := old(pairingAttempts)[i];
                a.grant < |pairings| && (old(pairings)[a.grant].org != org || CodeLive(old(pairings)[a.grant], now)) ==>
                  pairingAttempts[i] == a
      ensures forall code :: CodeTaken(pairings, code, now) == old(CodeTaken(pairings, code, now))
    {
      hide ExpiredGrants, KeptGrants, KeptAttempts, KeptRecords, Inv, CodeTaken, Pruned;
      ghost var s := Contents();
      PruningIs(s, org, now, keep);
      PruningLeavesAlone(s, org, now, keep);
      forall code ensures CodeTaken(PrunedState(s, org, now, keep).grants, code, now)
        == CodeTaken(s.grants, code, now)
      {
        PruningKeepsCodes(s, org, now, keep, code);
      }
      forall t | Inv(s, t) ensures Inv(PrunedState(s, org, now, keep), t) { PruningKeepsInv(s, org, now, keep, t); }
      ExpireGrants(org, now);
      RemoveGrants(org, now);
      ForgetResponses(org, now, keep);
    }

    method AdvanceGeneration(screen: Id)
      requires screen < |screens|
      modifies `screens
      ensures Contents() == Advanced(old(Contents()), screen)
      ensures forall t | old(Valid(t)) :: Valid(t)
    {
      hide Inv;
      ghost var s := Contents();
      forall t | Inv(s, t) ensures Inv(Advanced(s, screen), t) { AdvancedKeepsInv(s, screen, t); }
      screens := screens[screen := screens[screen].(generation := screens[screen].generation + 1, token := None)];
    }

    // ---------------------------------------------------------------- making grants

    /** An open grant: its code leads to it and to no other. */
    method TryCreatePairing(org: Id, code: Id, expiresAt: int, actor: Id, now: int) returns (r: Made)
      requires Valid(now)
      modifies `pairings
      ensures (Contents(), r) == PairingCreated(old(Contents()), org, code, expiresAt, actor, now)
      ensures PairingDecided(old(Contents()), Contents(), r, org, code, expiresAt, actor, now)
      ensures Valid(now)
      ensures r.Made? && now < expiresAt ==> FindOpenCode(pairings, code, now) == Some(r.grant)
      ensures r.NotMade? ==> Contents() == old(Contents())
    {
      hide IsAdministrator, CodeTaken, SameCodeExpired, Inv, FindOpenCode, PairingDecided;
      ghost var s := Contents();
      PairingDecides(s, org, code, expiresAt, actor, now);
      PairingCreatedKeepsInv(s, org, code, expiresAt, actor, now);
      PairingCreatedIsClaimable(s, org, code, expiresAt, actor, now);
      if !IsAdministrator(users, org, actor) {
        return NotMade(MakeForbidden);
      }
      if CodeTaken(pairings, code, now) {
        return NotMade(CodeCollision);
      }
      var before := pairings;
      for k := 0 to |before|
        modifies `pairings
        invariant |pairings| == |before|
        invariant forall i | 0 <= i < |before| ::
                    pairings[i] == if i < k && SameCodeExpired(before[i], code, now) then before[i].(status := Expired)
                                   else before[i]
      {
        if SameCodeExpired(pairings[k], code, now) {
          pairings := pairings[k := pairings[k].(status := Expired)];
        }
      }
      assert pairings == ExpiredCode(before, code, now);
      pairings := pairings + [OpenGrant(org, code, expiresAt)];
      return Made(|before|, false);
    }

    /** A screen asked to enroll again has no attached credential left, and this is the one pending grant for it. */
    method RequestScreenReenrollment(org: Id, screen: Id, code: Id, expiresAt: int, actor: Id, now: int)
      returns (r: Made)
      requires Valid(now)
      modifies this
      ensures (Contents(), r) == ReenrollmentRequested(old(Contents()), org, screen, code, expiresAt, actor, now)
      ensures ReenrollmentRequestDecided(old(Contents()), Contents(), r, org, screen, code, expiresAt, actor, now)
      ensures Valid(now)
      ensures r.Made? ==>
                && NoneAttached(deviceCredentials, screen)
                && r.grant < |pairings| && PendingFor(pairings[r.grant], screen)
                && forall i | 0 <= i < |pairings| && i != r.grant :: !PendingFor(pairings[i], screen)
      ensures r.NotMade? ==> Contents() == old(Contents())
    {
      hide IsAdministrator, CodeTaken, PrunedState, RevokedState, DetachedState, IssuerOf, Inv, NoneAttached,
           NoneSelected, Pruned, ReenrollmentRequestDecided;
      ReenrollmentRequestDecides(Contents(), org, screen, code, expiresAt, actor, now);
      ReenrollmentRequestedKeepsInv(Contents(), org, screen, code, expiresAt, actor, now);
      ReenrollmentRequestedClears(Contents(), org, screen, code, expiresAt, actor, now);
      if !IsAdministrator(users, org, actor) {
        return NotMade(MakeForbidden);
      }
      if !HasScreen(screens, org, screen) {
        return NotMade(TargetNotFound);
      }
      if CodeTaken(pairings, code, now) {
        return NotMade(CodeCollision);
      }
      var issuer := IssuerOf(users, org, actor);
      PruneDeviceEnrollmentAuthority(org, now, None);
      RevokeGrants(Targeting(screen), Unbound);
      DetachCredentials(AttachedTo(org, screen), now);
      AdvanceGeneration(screen);
      pairings :=
        pairings + [TargetedGrant(org, code, expiresAt, Reenroll, screen, screens[screen].generation, issuer)];
      return Made(|pairings| - 1, false);
    }

    /** A new enrollment is the one pending grant for its screen, and asking again under its key is answered with it. */
    method RequestScreenEnrollment(org: Id, screen: Id, codes: seq<Id>, actor: Id, k: Keyed, now: int) returns (r: Made)
      requires Valid(now)
      modifies this
      ensures (Contents(), r) == EnrollmentRequested(old(Contents()), org, screen, codes, actor, k, now)
      ensures EnrollmentRequestDecided(old(Contents()), Contents(), r, org, screen, codes, actor, k, now)
      ensures Valid(now)
      ensures r.Made? && !r.replayed ==>
                && r.grant < |pairings| && PendingFor(pairings[r.grant], screen)
                && (forall i | 0 <= i < |pairings| && i != r.grant :: !PendingFor(pairings[i], screen))
                && forall later | now <= later < now + AUTHORITY_RETENTION ::
                     EnrollmentRequested(Contents(), org, screen, codes, actor, k, later).1 == Made(r.grant, true)
      ensures r.NotMade? ==> Contents() == old(Contents())
    {
      hide IsAdministrator, CodeTaken, PrunedState, RevokedState, IssuerOf, RecordRefusal, FirstFreeCode,
           HasAnyCredential, Inv, NoneSelected, Pruned, EnrollmentRequestDecided;
      ghost var s := Contents();
      EnrollmentRequestDecides(s, org, screen, codes, actor, k, now);
      EnrollmentRequestedKeepsInv(s, org, screen, codes, actor, k, now);
      EnrollmentRequestedIsOnlyOne(s, org, screen, codes, actor, k, now);
      EnrollmentStaysRepeatable(s, org, screen, codes, actor, k, now);
      if !IsAdministrator(users, org, actor) {
        return NotMade(MakeForbidden);
      }
      var existing := FindRecord(enrollmentRecords, CreateRecord, org, k.keyHash);
      if existing.Some? {
        var record := enrollmentRecords[existing.value];
        var refusal := RecordRefusal(record, actor, k, now);
        if refusal.Some? {
          return NotMade(refusal.value);
        }
        RefusalCoversMissing(record, actor, k, now);
        var grant := record.response.value;
        if grant >= |pairings| || pairings[grant].pruned {
          return NotMade(MakeKeyExpired);
        }
        PruneDeviceEnrollmentAuthority(org, now, Some(k.keyHash));
        return Made(grant, true);
      }
      if !HasScreen(screens, org, screen) {
        return NotMade(TargetNotFound);
      }
      if !Eligible(Contents(), org, screen) {
        return NotMade(NotEligible);
      }
      var code := FirstFreeCode(pairings, codes, now);
      if code.None? {
        return NotMade(CodeCollision);
      }
      var issuer := IssuerOf(users, org, actor);
      PruneDeviceEnrollmentAuthority(org, now, Some(k.keyHash));
      RevokeGrants(EnrollingIn(org, screen), Unbound);
      var grant := |pairings|;
      pairings := pairings + [TargetedGrant(org, code.value, now + GRANT_LIFETIME, Enroll, screen, 0, issuer)];
      enrollmentRecords := enrollmentRecords
        + [EnrollmentRecord(CreateRecord, org, k.keyHash, actor, k.request, now + AUTHORITY_RETENTION, Some(grant))];
      return Made(grant, false);
    }

    lemma {:induction false} EnrollmentStaysRepeatable(
        s: State, org: Id, screen: Id, codes: seq<Id>, actor: Id, k: Keyed, now: int)
      ensures var (t, r) := EnrollmentRequested(s, org, screen, codes, actor, k, now);
              r.Made? && !r.replayed ==>
                forall later | now <= later < now + AUTHORITY_RETENTION ::
                  EnrollmentRequested(t, org, screen, codes, actor, k, later).1 == Made(r.grant, true)
    {
      hide EnrollmentRequested;
      var (t, r) := EnrollmentRequested(s, org, screen, codes, actor, k, now);
      if r.Made? && !r.replayed {
        forall later | now <= later < now + AUTHORITY_RETENTION
          ensures EnrollmentRequested(t, org, screen, codes, actor, k, later).1 == Made(r.grant, true)
        {
          EnrollmentRequestIsRepeatable(s, org, screen, codes, actor, k, now, later);
        }
      }
    }

    lemma {:induction false} RefusalCoversMissing(r: EnrollmentRecord, actor: Id, k: Keyed, now: int)
      requires RecordRefusal(r, actor, k, now).None?
      ensures r.response.Some?
    {
    }

    /** A cancelled grant is closed, with no attempt that could still be activated. */
    method CancelGrant(org: Id, screen: Id, grant: Id, purpose: Purpose, actor: Id, ghost now: int)
      returns (cancelled: bool)
      requires Valid(now)
      modifies this
      ensures (Contents(), cancelled) == GrantCancelled(old(Contents()), org, screen, grant, purpose, actor)
      ensures CancelDecided(old(Contents()), Contents(), cancelled, org, screen, grant, purpose, actor)
      ensures Valid(now)
      ensures cancelled ==>
                && grant < |pairings| && pairings[grant].status.Revoked?
                && forall i | 0 <= i < |pairingAttempts| && pairingAttempts[i].grant == grant
                              && !pairingAttempts[i].consumed ::
                     pairingAttempts[i].cancelled
      ensures !cancelled ==> Contents() == old(Contents())
    {
      hide IsAdministrator, RevokedState, Inv, NoneSelected, CancelDecided;
      CancelDecides(Contents(), org, screen, grant, purpose, actor);
      CancelledIsClosed(Contents(), org, screen, grant, purpose, actor, now);
      if !IsAdministrator(users, org, actor) || !HasTargetedGrant(pairings, grant, screen, purpose)
         || pairings[grant].org != org || !pairings[grant].status.Pending?
      {
        return false;
      }
      RevokeGrants(Only(grant), Unconsumed);
      return true;
    }

    // ---------------------------------------------------------------- activating

    /** Binds a new credential of the attempt's key to a screen that has none attached, and closes the grant. */
    method AttachCredential(screen: Id, grant: Id, attempt: Id, ghost now: int) returns (credential: Id)
      requires Valid(now) && screen < |screens| && grant < |pairings| && attempt < |pairingAttempts|
      requires pairingAttempts[attempt].grant == grant && PendingFor(pairings[grant], screen)
      requires !HasKey(deviceCredentials, pairingAttempts[attempt].key) && NoneAttached(deviceCredentials, screen)
      modifies this
      ensures Contents() == Attached(old(Contents()), screen, grant, attempt)
      ensures credential == |old(deviceCredentials)|
      ensures Valid(now) && BoundTo(Contents(), credential, screen, attempt)
    {
      hide Inv, HasKey, NoneAttached;
      AttachedKeepsInv(Contents(), screen, grant, attempt, now);
      var a, x := pairingAttempts[attempt], screens[screen];
      credential := |deviceCredentials|;
      screens := screens[screen := x.(installation := a.installation, token := None, generation := x.generation + 1)];
      deviceCredentials := deviceCredentials + [Credential(x.org, screen, a.key, a.credentialExpiresAt, false, None)];
      usedDeviceKeyIds := usedDeviceKeyIds + {a.key};
      pairings := pairings[grant := pairings[grant].(status := Claimed, screen := Some(screen))];
      var before := pairingAttempts;
      pairingAttempts := pairingAttempts[attempt := a.(activated := true, bound := Some(credential))];
      for k := 0 to |before|
        modifies `pairingAttempts
        invariant |pairingAttempts| == |before|
        invariant pairingAttempts[attempt] == a.(activated := true, bound := Some(credential))
        invariant forall i | 0 <= i < |before| && i != attempt ::
                    pairingAttempts[i] == if i < k && before[i].grant == grant && !before[i].pruned
                                          then before[i].(cancelled := true) else before[i]
      {
        if before[k].grant == grant && k != attempt && !before[k].pruned {
          pairingAttempts := pairingAttempts[k := pairingAttempts[k].(cancelled := true)];
        }
      }
      assert pairingAttempts
             == OthersCancelled(before, grant, attempt)[attempt := a.(activated := true, bound := Some(credential))];
    }

    /** An activation binds the attempt's key to the screen; activating again finds the same credential. */
    method ActivateReenrollmentCandidate(org: Id, screen: Id, grant: Id, attempt: Id, actor: Id, now: int)
      returns (r: Activation)
      requires Valid(now)
      modifies this
      ensures (Contents(), r) == ReenrollmentActivated(old(Contents()), org, screen, grant, attempt, actor, now)
      ensures ReenrollmentDecided(old(Contents()), Contents(), r, org, screen, grant, attempt, actor, now)
      ensures (r.Active? && !r.replayed) <==>
                old(Administers(users, org, actor) && CanBind(Contents(), org, screen, grant, attempt, now)
                    && pairings[grant].target.value.purpose == Reenroll)
      ensures Valid(now)
      ensures r.Active? && !r.replayed ==> BoundTo(Contents(), r.credential, screen, attempt)
      ensures r.Active? ==>
                ReenrollmentActivated(Contents(), org, screen, grant, attempt, actor, now)
                  == (Contents(), Active(r.credential, true))
      ensures r.NotActive? ==> Contents() == old(Contents())
    {
      hide IsAdministrator, IssuerCurrent, HasKey, Attached, RevokedState, Inv, NoneSelected, NoneAttached, BoundTo,
           ReenrollmentDecided, Administers, CanBind;
      ghost var s := Contents();
      ReenrollmentDecides(s, org, screen, grant, attempt, actor, now);
      ReenrollmentActivatesExactly(s, org, screen, grant, attempt, actor, now);
      ReenrollmentActivatedKeepsInv(s, org, screen, grant, attempt, actor, now);
      ReenrollmentIsRepeatable(s, org, screen, grant, attempt, actor, now, now);
      if !IsAdministrator(users, org, actor) {
        return NotActive(ActivateForbidden);
      }
      var hasAttempt := HasAttempt(pairingAttempts, org, attempt);
      var hasGrant :=
        hasAttempt && pairingAttempts[attempt].grant == grant && HasTargetedGrant(pairings, grant, screen, Reenroll);
      if hasGrant && !IssuerCurrent(users, org, pairings[grant].target.value.issuer) {
        return NotActive(Stale);
      }
      if hasAttempt && (pairingAttempts[attempt].consumed || pairingAttempts[attempt].activated)
         && pairingAttempts[attempt].bound.Some?
      {
        var credential := pairingAttempts[attempt].bound.value;
        if credential < |deviceCredentials| && HasScreen(screens, org, screen)
           && deviceCredentials[credential].revokedAt.None? && !deviceCredentials[credential].detached
           && hasGrant && screens[screen].generation == pairings[grant].target.value.expectedGeneration + 1
        {
          return Active(credential, true);
        }
        return NotActive(Stale);
      }
      if !hasAttempt || !hasGrant || !pairingAttempts[attempt].proved || pairingAttempts[attempt].cancelled {
        return NotActive(CandidateNotFound);
      }
      if !HasScreen(screens, org, screen) || !pairings[grant].status.Pending? || pairings[grant].expiresAt <= now
         || pairings[grant].target.value.expectedGeneration != screens[screen].generation
      {
        return NotActive(Stale);
      }
      if HasKey(deviceCredentials, pairingAttempts[attempt].key) || pairingAttempts[attempt].key in usedDeviceKeyIds {
        return NotActive(Stale);
      }
      ReenrollmentFindsNone(s, screen, grant, now);
      var credential := AttachCredential(screen, grant, attempt, now);
      RevokeGrants(Targeting(screen), Nothing);
      return Active(credential, false);
    }

    /** An activation binds the confirmed key to the screen; the same request is answered with the same credential. */
    method ActivateScreenEnrollmentCandidate(
        org: Id, screen: Id, grant: Id, attempt: Id, fingerprint: Id, actor: Id, k: Keyed, now: int)
      returns (r: Activation)
      requires Valid(now)
      modifies this
      ensures (Contents(), r)
              == EnrollmentActivated(old(Contents()), org, screen, grant, attempt, fingerprint, actor, k, now)
      ensures EnrollmentDecided(old(Contents()), Contents(), r, org, screen, grant, attempt, fingerprint, actor, k, now)
      ensures Valid(now)
      ensures r.Active? && !r.replayed ==>
                && BoundTo(Contents(), r.credential, screen, attempt) && pairingAttempts[attempt].key == fingerprint
                && forall later | now <= later < now + AUTHORITY_RETENTION ::
                     EnrollmentActivated(Contents(), org, screen, grant, attempt, fingerprint, actor, k, later).1
                     == Active(r.credential, true)
      ensures r.NotActive? ==> Contents() == old(Contents())
    {
      hide IsAdministrator, Attached, RevokedState, PrunedState, RecordRefusal, ActivationStale, Inv, NoneSelected,
           NoneAttached, HasKey, BoundTo, EnrollmentDecided, Pruned;
      ghost var s := Contents();
      EnrollmentDecides(s, org, screen, grant, attempt, fingerprint, actor, k, now);
      EnrollmentActivatedKeepsInv(s, org, screen, grant, attempt, fingerprint, actor, k, now);
      ActivationStaysRepeatable(s, org, screen, grant, attempt, fingerprint, actor, k, now);
      if !IsAdministrator(users, org, actor) {
        return NotActive(ActivateForbidden);
      }
      var existing := FindRecord(enrollmentRecords, ActivateRecord, org, k.keyHash);
      if existing.Some? {
        var record := enrollmentRecords[existing.value];
        var refusal := RecordRefusal(record, actor, k, now);
        if refusal.Some? {
          return NotActive(if refusal.value.MakeKeyReused? then ActivateKeyReused else ActivateKeyExpired);
        }
        RefusalCoversMissing(record, actor, k, now);
        if record.response.value >= |deviceCredentials| || !HasScreen(screens, org, screen) {
          return NotActive(Stale);
        }
        PruneDeviceEnrollmentAuthority(org, now, Some(k.keyHash));
        return Active(record.response.value, true);
      }
      if !HasScreen(screens, org, screen) || !HasTargetedGrant(pairings, grant, screen, Enroll)
         || pairings[grant].org != org
         || !HasAttempt(pairingAttempts, org, attempt) || pairingAttempts[attempt].grant != grant
      {
        return NotActive(CandidateNotFound);
      }
      if pairingAttempts[attempt].key != fingerprint {
        return NotActive(FingerprintMismatch);
      }
      if ActivationStale(Contents(), org, screen, grant, attempt, now) {
        return NotActive(Stale);
      }
      ActivatableAttempt(s, org, screen, grant, attempt, now, Some(k.keyHash));
      PruneDeviceEnrollmentAuthority(org, now, Some(k.keyHash));
      var credential := AttachCredential(screen, grant, attempt, now);
      RevokeGrants(TargetingIn(org, screen), Unbound);
      enrollmentRecords := enrollmentRecords
        + [EnrollmentRecord(ActivateRecord, org, k.keyHash, actor, k.request, now + AUTHORITY_RETENTION,
                            Some(credential))];
      return Active(credential, false);
    }

    /** What the staleness checks establish is not undone by the pruning that follows them. */
    lemma {:induction false} ActivatableAttempt(
        s: State, org: Id, screen: Id, grant: Id, attempt: Id, now: int, keep: Option<Id>)
      requires Inv(s, now) && HasScreen(s.screens, org, screen) && HasTargetedGrant(s.grants, grant, screen, Enroll)
      requires HasAttempt(s.attempts, org, attempt) && s.attempts[attempt].grant == grant
      requires !ActivationStale(s, org, screen, grant, attempt, now)
      ensures var t := PrunedState(s, org, now, keep);
              && screen < |t.screens| && grant < |t.grants| && attempt < |t.attempts|
              && t.attempts[attempt].grant == grant && PendingFor(t.grants[grant], screen)
              && !HasKey(t.credentials, t.attempts[attempt].key) && NoneAttached(t.credentials, screen)
    {
      hide Inv, PrunedState, NoneAttached, HasKey, HasAnyCredential, IssuerCurrent;
      EnrollmentFindsNone(s, org, screen, now);
      KeyIsFree(s, s.attempts[attempt].key, now);
      PruningKeepsLive(s, org, now, keep, grant, attempt);
    }

    lemma {:induction false} ActivationStaysRepeatable(
        s: State, org: Id, screen: Id, grant: Id, attempt: Id, fingerprint: Id, actor: Id, k: Keyed, now: int)
      requires Inv(s, now)
      ensures var (t, r) := EnrollmentActivated(s, org, screen, grant, attempt, fingerprint, actor, k, now);
              r.Active? && !r.replayed ==>
                && BoundTo(t, r.credential, screen, attempt) && t.attempts[attempt].key == fingerprint
                && forall later | now <= later < now + AUTHORITY_RETENTION ::
                     EnrollmentActivated(t, org, screen, grant, attempt, fingerprint, actor, k, later).1
                       == Active(r.credential, true)
    {
      hide EnrollmentActivated, Inv;
      var (t, r) := EnrollmentActivated(s, org, screen, grant, attempt, fingerprint, actor, k, now);
      if r.Active? && !r.replayed {
        EnrollmentIsRepeatable(s, org, screen, grant, attempt, fingerprint, actor, k, now, now);
        forall later | now <= later < now + AUTHORITY_RETENTION
          ensures EnrollmentActivated(t, org, screen, grant, attempt, fingerprint, actor, k, later).1
                  == Active(r.credential, true)
        {
          EnrollmentIsRepeatable(s, org, screen, grant, attempt, fingerprint, actor, k, now, later);
        }
      }
    }

    // ---------------------------------------------------------------- claiming and proving

    /** A code makes one screen: once claimed, nothing pending carries it. */
    method ClaimPairing(code: Id, installation: Id, token: Id, now: int) returns (r: Option<Id>)
      requires Valid(now)
      modifies this
      ensures (Contents(), r) == PairingClaimed(old(Contents()), code, installation, token, now)
      ensures OpenClaimDecided(old(Contents()), Contents(), r, code, installation, token, now)
      ensures Valid(now)
      ensures r.Some? ==>
                && old(CodeTaken(pairings, code, now)) && !CodeTaken(pairings, code, now)
                && r.value == |old(screens)| < |screens| && screens[r.value].token == Some(token)
      ensures r.None? ==> Contents() == old(Contents()) && FindOpenCode(pairings, code, now).None?
    {
      hide FirstWhere, Inv, OpenClaimDecided;
      OpenClaimDecides(Contents(), code, installation, token, now);
      PairingClaimedKeepsInv(Contents(), code, installation, token, now);
      ClaimedCodeIsSpent(Contents(), code, installation, token, now);
      var k := FindOpenCode(pairings, code, now);
      if k.None? {
        return None;
      }
      var p := pairings[k.value];
      var screen := |screens|;
      screens := screens + [NewScreen(p.org, installation, Some(token), k.value)];
      pairings := pairings[k.value := p.(status := Claimed, screen := Some(screen))];
      return Some(screen);
    }

    /**
     An issued attempt is one of at most four outstanding ones for its grant and key, the key has not
     been used, and whoever presents its values can claim it.
     */
    method IssuePairingChallenge(q: ProofRequest, now: int) returns (r: Option<Id>)
      requires Valid(now)
      modifies this
      ensures (Contents(), r) == ProofIssued(old(Contents()), q, now)
      ensures ProofIssueDecided(old(Contents()), Contents(), r, q, now)
      ensures Valid(now)
      ensures r.Some? ==>
                && r.value < |pairingAttempts| && q.key !in usedDeviceKeyIds
                   && now < q.expiresAt <= now + MAX_PROOF_LIFETIME
                && var grant := pairingAttempts[r.value].grant;
                   && r.value in OutstandingAttempts(pairingAttempts, grant, q.key, now)
                   && |OutstandingAttempts(pairingAttempts, grant, q.key, now)| <= LIMIT
                   && forall installation ::
                        ClaimBegun(Contents(), q.codeHash, r.value, q.hash, q.transcript, q.key, installation)
                        == Some(Claim(r.value, grant, installation))
      ensures r.None? ==> Contents() == old(Contents())
    {
      hide FirstWhere, IssuerCurrent, HasKey, HashSeen, OutstandingAttempts, Inv, ClaimBegun, ProofIssueDecided;
      ProofIssueDecides(Contents(), q, now);
      IssuedStaysInLimits(Contents(), q, now);
      var k := FindCode(pairings, q.codeHash, now);
      if k.None? {
        return None;
      }
      var pairing := pairings[k.value];
      var issuerIsCurrent := pairing.target.None? || IssuerCurrent(users, pairing.org, pairing.target.value.issuer);
      var lifetime := q.expiresAt - now;
      if !issuerIsCurrent || lifetime <= 0 || lifetime > MAX_PROOF_LIFETIME
         || HasKey(deviceCredentials, q.key) || q.key in usedDeviceKeyIds || HashSeen(pairingAttempts, q.hash)
         || |OutstandingAttempts(pairingAttempts, k.value, q.key, now)| >= LIMIT
      {
        return None;
      }
      pairingAttempts := pairingAttempts + [NewAttempt(pairing.org, k.value, q)];
      return Some(|pairingAttempts| - 1);
    }

    lemma {:induction false} IssuedStaysInLimits(s: State, q: ProofRequest, now: int)
      requires Inv(s, now)
      ensures var (t, r) := ProofIssued(s, q, now);
              && Inv(t, now)
              && (r.Some? ==>
                    && r.value < |t.attempts| && q.key !in t.usedKeys && now < q.expiresAt <= now + MAX_PROOF_LIFETIME
                    && var grant := t.attempts[r.value].grant;
                       && r.value in OutstandingAttempts(t.attempts, grant, q.key, now)
                       && |OutstandingAttempts(t.attempts, grant, q.key, now)| <= LIMIT
                       && forall installation ::
                            ClaimBegun(t, q.codeHash, r.value, q.hash, q.transcript, q.key, installation)
                            == Some(Claim(r.value, grant, installation)))
    {
      hide ProofIssued, Shaped, DevicesSound, OnePending, CodesDistinct, PrunedTogether, WonOnce, ProvedBounded,
           GrantsBehind, OriginsClaimed, IssuersCurrent, ClaimBegun;
      var (t, r) := ProofIssued(s, q, now);
      ProofIssuedKeepsInv(s, q, now);
      if r.Some? {
        IssuedCanBeClaimed(s, q, now, 0);
        forall installation
          ensures ClaimBegun(t, q.codeHash, r.value, q.hash, q.transcript, q.key, installation)
                  == Some(Claim(r.value, t.attempts[r.value].grant, installation))
        {
          IssuedCanBeClaimed(s, q, now, installation);
        }
      }
    }

    /**
     The part of a claim after its proof has been verified. A device told it is paired has an
     unrevoked attached credential on an existing screen; one told to wait has a proved attempt of a
     pending grant whose issuer still stands behind it; and the same claim is answered alike again.
     */
    method CompleteClaim(c: Claim, now: int) returns (r: Pairing)
      requires Valid(now) && c.attempt < |pairingAttempts| && c.grant < |pairings|
               && pairingAttempts[c.attempt].grant == c.grant
      modifies this
      ensures (Contents(), r) == ClaimFinished(old(Contents()), c, now)
      ensures ClaimDecided(old(Contents()), Contents(), r, c, now)
      ensures Valid(now)
      ensures r.Paired? ==>
                && r.credential < |deviceCredentials|
                && var k := deviceCredentials[r.credential];
                   k.revokedAt.None? && !k.detached && k.screen == r.screen && HasScreen(screens, k.org, r.screen)
      ensures r.PendingApproval? ==>
                && c.attempt < |pairingAttempts| && pairingAttempts[c.attempt].proved
                && c.grant < |pairings| && CodeLive(pairings[c.grant], now) && pairings[c.grant].target.Some?
                && IssuerCurrent(users, pairings[c.grant].org, pairings[c.grant].target.value.issuer)
      ensures r.Invalid? ==> Contents() == old(Contents())
      ensures c.attempt < |pairingAttempts| && c.grant < |pairings|
      ensures (r.Paired? ==> Unexpired(deviceCredentials[r.credential].expiresAt, now)) ==>
                ClaimFinished(Contents(), c, now) == (Contents(), r)
    {
      hide IssuerCurrent, HasKey, ProvedAttempts, Inv, ClaimDecided;
      ClaimDecides(Contents(), c, now);
      ClaimFinishedKeepsInv(Contents(), c, now);
      ClaimAnswers(Contents(), c, now);
      ClaimIsIdempotent(Contents(), c, now);
      var attempt, pairing := pairingAttempts[c.attempt], pairings[c.grant];
      if (attempt.consumed || attempt.activated) && attempt.bound.Some? {
        var b := attempt.bound.value;
        if b < |deviceCredentials| && deviceCredentials[b].revokedAt.None?
           && Unexpired(deviceCredentials[b].expiresAt, now)
           && HasScreen(screens, deviceCredentials[b].org, deviceCredentials[b].screen)
        {
          return Paired(b, deviceCredentials[b].screen);
        }
        return Invalid;
      }
      if pairing.target.Some? && attempt.proved && !attempt.cancelled && pairing.status.Pending?
         && pairing.expiresAt > now
      {
        return PendingApproval;
      }
      if attempt.expiresAt <= now || pairing.expiresAt <= now || !pairing.status.Pending?
         || HasKey(deviceCredentials, attempt.key)
      {
        return Invalid;
      }
      if pairing.target.Some? {
        if !IssuerCurrent(users, pairing.org, pairing.target.value.issuer)
           || |ProvedAttempts(pairingAttempts, c.grant)| >= LIMIT
        {
          return Invalid;
        }
        pairingAttempts := pairingAttempts[c.attempt := attempt.(proved := true, installation := Some(c.installation))];
        return PendingApproval;
      }
      var screen, credential := |screens|, |deviceCredentials|;
      screens := screens + [NewScreen(pairing.org, c.installation, None, c.grant)];
      deviceCredentials :=
        deviceCredentials + [Credential(pairing.org, screen, attempt.key, attempt.credentialExpiresAt, false, None)];
      usedDeviceKeyIds := usedDeviceKeyIds + {attempt.key};
      pairings := pairings[c.grant := pairing.(status := Claimed, screen := Some(screen))];
      pairingAttempts := pairingAttempts[c.attempt := attempt.(consumed := true, bound := Some(credential))];
      return Paired(credential, screen);
    }

    /**
     The part of an issue after the credential has been authenticated. The challenge is one of at most
     four live ones and can be answered with the values it was issued for; those alive before stay so.
     */
    method CompleteChallenge(i: Issue, now: int) returns (r: Option<Id>)
      requires Valid(now) && (i.credential.Some? ==> i.credential.value < |deviceCredentials|)
      modifies this
      ensures (Contents(), r) == IssueFinished(old(Contents()), i, now)
      ensures IssueDecided(old(Contents()), Contents(), r, i, now)
      ensures Valid(now)
      ensures r.Some? ==>
                && i.credential.Some? && now < i.r.expiresAt <= now + MAX_CHALLENGE_LIFETIME
                && Matches(Contents(), ProofInput(i.credential.value, r.value, i.r.hash, i.r.activity, i.r.request),
                           now)
                && r.value in LiveChallenges(deviceAuthChallenges, i.credential.value, i.r.activity, now)
                && |LiveChallenges(deviceAuthChallenges, i.credential.value, i.r.activity, now)| <= LIMIT
      ensures forall c, activity ::
                old(LiveChallenges(deviceAuthChallenges, c, activity, now))
                  <= LiveChallenges(deviceAuthChallenges, c, activity, now)
      ensures r.None? ==> Contents() == old(Contents())
    {
      hide ChallengeHashSeen, LiveChallenges, KeptChallenges, Inv, Matches, IssueDecided, FirstDropped;
      IssueDecides(Contents(), i, now);
      IssueFinishedKeepsInv(Contents(), i, now);
      IssuedCanBeAnswered(Contents(), i, now);
      FewAreLive(IssueFinished(Contents(), i, now).0, now);
      var q := i.r;
      var lifetime := q.expiresAt - now;
      if i.credential.None? || lifetime <= 0 || lifetime > MAX_CHALLENGE_LIFETIME
         || ChallengeHashSeen(deviceAuthChallenges, q.hash)
         || |LiveChallenges(deviceAuthChallenges, i.credential.value, q.activity, now)| >= LIMIT
      {
        return None;
      }
      var credential := i.credential.value;
      var id := |deviceAuthChallenges|;
      DropChallenges(now);
      deviceAuthChallenges := deviceAuthChallenges
        + [Challenge(deviceCredentials[credential].org, credential, q.hash, q.activity, q.request, q.expiresAt, None,
                     false)];
      return Some(id);
    }

    lemma {:induction false} FewAreLive(s: State, now: int)
      requires Inv(s, now)
      ensures forall c, activity :: |LiveChallenges(s.challenges, c, activity, now)| <= LIMIT
    {
    }

    /**
     The part of a proof after its verification. An authenticated device was active and its challenge
     open; the challenge is spent now, so that no proof is ever accepted with it again, and nothing
     else changes.
     */
    method ConsumeDeviceProof(p: Proof, now: int) returns (authenticated: bool)
      requires Valid(now)
      modifies this
      ensures (Contents(), authenticated) == ProofFinished(old(Contents()), p, now)
      ensures ConsumptionDecided(old(Contents()), Contents(), authenticated, p, now)
      ensures Valid(now)
      ensures authenticated ==>
                && old(IsActive(Contents(), p.input.credential, now) && Matches(Contents(), p.input, now))
                && p.input.challenge < |deviceAuthChallenges|
                && deviceAuthChallenges[p.input.challenge].consumedAt == Some(now)
                && forall q: Proof, at | q.input.challenge == p.input.challenge :: !Accepts(Contents(), q, at)
      ensures !authenticated ==> Contents() == old(Contents())
    {
      hide IsActive, Inv, ConsumptionDecided;
      ConsumptionDecides(Contents(), p, now);
      ProofFinishedKeepsInv(Contents(), p, now);
      AcceptedIsSpent(Contents(), p, now);
      if !IsActive(Contents(), p.input.credential, now) {
        return false;
      }
      if !Matches(Contents(), p.input, now) {
        return false;
      }
      ActiveHasScreen(Contents(), p.input.credential, now);
      if screens[deviceCredentials[p.input.credential].screen].generation != p.generation {
        return false;
      }
      var challenge := deviceAuthChallenges[p.input.challenge];
      deviceAuthChallenges := deviceAuthChallenges[p.input.challenge := challenge.(consumedAt := Some(now))];
      return true;
    }

    lemma {:induction false} ActiveHasScreen(s: State, c: Id, now: int)
      requires IsActive(s, c, now)
      ensures c < |s.credentials| && s.credentials[c].screen < |s.screens|
    {
    }

    // ---------------------------------------------------------------- revoking

    /** After a revocation no credential of the screen can authenticate, at any time, and no grant for it is pending. */
    method RevokeDeviceCredential(org: Id, screen: Id, actor: Id, now: int) returns (r: Revocation)
      requires Valid(now)
      modifies this
      ensures (Contents(), r) == CredentialRevoked(old(Contents()), org, screen, actor, now)
      ensures RevocationDecided(old(Contents()), Contents(), r, org, screen, actor, now)
      ensures Valid(now)
      ensures r.RevokedCredential? ==>
                && (forall c: Id, at | c < |deviceCredentials| && deviceCredentials[c].screen == screen ::
                      !IsActive(Contents(), c, at))
                && NoneSelected(pairings, TargetingIn(org, screen))
      ensures r.NotRevoked? ==> Contents() == old(Contents())
    {
      hide IsAdministrator, HasPending, RevokedState, DetachedState, FindAttached, FindRevoked, Inv, NoneSelected,
           NoneAttached, IsActive, CredentialToRevoke, Picks, RevocationDecided;
      ghost var s := Contents();
      RevocationDecides(s, org, screen, actor, now);
      CredentialRevokedKeepsInv(s, org, screen, actor, now);
      RevokedLeavesNothing(s, org, screen, actor, now);
      ghost var (t, outcome) := CredentialRevoked(s, org, screen, actor, now);
      if outcome.RevokedCredential? { NoneAttachedMeansNoneActive(t, screen); }
      if !IsAdministrator(users, org, actor) {
        return NotRevoked(RevokeForbidden);
      }
      var credential := CredentialToRevoke(deviceCredentials, org, screen);
      FoundCredentialExists(deviceCredentials, org, screen);
      if !HasScreen(screens, org, screen) {
        return NotRevoked(NoCredential);
      }
      if credential.None? || deviceCredentials[credential.value].revokedAt.Some? {
        if !HasPending(pairings, org, screen) {
          return NotRevoked(if credential.Some? then AlreadyRevoked else NoCredential);
        }
        RevokeGrants(TargetingIn(org, screen), Unconsumed);
        assert screens == old(screens) by { RevokedFrame(old(Contents()), TargetingIn(org, screen), Unconsumed); }
        AdvanceGeneration(screen);
        return RevokedCredential(credential);
      }
      DetachCredentials(Single(credential.value), now);
      AdvanceGeneration(screen);
      RevokeGrants(Targeting(screen), Unconsumed);
      return RevokedCredential(credential);
    }

    lemma {:induction false} FoundCredentialExists(credentials: seq<Credential>, org: Id, screen: Id)
      ensures var c := CredentialToRevoke(credentials, org, screen); c.Some? ==> c.value < |credentials|
    {
    }

    lemma {:induction false} RevokedFrame(s: State, sel: Selector, cancel: Cancel)
      ensures RevokedState(s, sel, cancel).screens == s.screens
    {
    }

    /** A deleted screen is found by no lookup; nothing on it can authenticate and nothing is pending for it. */
    method DeleteScreen(org: Id, screen: Id, actor: Id, now: int) returns (deleted: bool)
      requires Valid(now)
      modifies this
      ensures (Contents(), deleted) == ScreenDeleted(old(Contents()), org, screen, actor, now)
      ensures DeletionDecided(old(Contents()), Contents(), deleted, org, screen, actor, now)
      ensures Valid(now)
      ensures deleted ==>
                && !HasScreen(screens, org, screen) && NoneSelected(pairings, Targeting(screen))
                && forall c: Id, at | c < |deviceCredentials| && deviceCredentials[c].screen == screen ::
                     !IsActive(Contents(), c, at)
      ensures !deleted ==> Contents() == old(Contents())
    {
      hide IsAdministrator, RevokedState, DetachedState, Inv, NoneSelected, NoneAttached, IsActive, Picks,
           DeletionDecided;
      ghost var s := Contents();
      DeletionDecides(s, org, screen, actor, now);
      ScreenDeletedKeepsInv(s, org, screen, actor, now);
      DeletedLeavesNothing(s, org, screen, actor, now);
      ghost var (t, outcome) := ScreenDeleted(s, org, screen, actor, now);
      if outcome { NoneAttachedMeansNoneActive(t, screen); }
      if !IsAdministrator(users, org, actor) {
        return false;
      }
      if !HasScreen(screens, org, screen) {
        return false;
      }
      DetachCredentials(EverOn(org, screen), now);
      RevokeGrants(Targeting(screen), Nothing);
      screens := screens[screen := screens[screen].(deleted := true)];
      return true;
    }

    /** The issuer's pending grants go first, then the rows change: the issuers of what stays pending are current. */
    method MutateUser(m: Identity.Mutation, sessions: seq<Identity.Session>, now: int)
      requires Valid(now)
      modifies this
      ensures Contents() == UserMutated(old(Contents()), m, sessions, now)
      ensures MutationDecided(old(Contents()), Contents(), m, sessions, now)
      ensures Valid(now)
      ensures forall i | 0 <= i < |pairings| && pairings[i].status.Pending? && pairings[i].target.Some? ::
                IssuerCurrent(users, pairings[i].org, pairings[i].target.value.issuer)
    {
      hide RevokedState, Identity.Judge, Identity.Mutated, Inv, NoneSelected, IssuerCurrent, MutationDecided;
      MutationDecides(Contents(), m, sessions, now);
      UserMutatedKeepsInv(Contents(), m, sessions, now);
      PendingAreBacked(UserMutated(Contents(), m, sessions, now), now);
      var before := Identity.State(users, sessions, 0);
      var outcome := Identity.Judge(before, m, now);
      if outcome.Applied? {
        RevokeGrants(IssuedBy(m.user, outcome.orgs), Unbound);
        users := Identity.Mutated(before, m, now).users;
      }
    }

    lemma {:induction false} PendingAreBacked(s: State, now: int)
      requires Inv(s, now)
      ensures forall i | 0 <= i < |s.grants| && s.grants[i].status.Pending? && s.grants[i].target.Some? ::
                IssuerCurrent(s.users, s.grants[i].org, s.grants[i].target.value.issuer)
    {
    }
  }
}
