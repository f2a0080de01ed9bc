/**
 Canonical forms of releases, candidates and assignments (apps/api/src/releases/canonical.ts).
 The SHA-256 digest of a snapshot is the snapshot itself: equal digests mean equal snapshots.
 Ids are numbers and instants are milliseconds.
 */
module Canonical {
  import opened Common

  type Id = nat

  datatype Asset = Asset(
    id: Id, url: Id, storageKey: Option<Id>, checksum: Id, sizeBytes: int, expiresAt: Option<int>)

  datatype PlaylistItem = PlaylistItem(id: Id, position: int, asset: Id, durationSeconds: int)

  datatype Playlist = Playlist(
    id: Id, org: Id, name: string, description: string, updatedAt: int, items: seq<PlaylistItem>)

  datatype FrozenItem = FrozenItem(id: Id, asset: Asset, position: int, durationSeconds: int)

  datatype ReleaseSnapshot = ReleaseSnapshot(
    sourcePlaylist: Id, sourcePlaylistUpdatedAt: int, name: string, description: string, items: seq<FrozenItem>)

  datatype Schedule = Schedule(
    name: string, priority: nat, startsAt: int, endsAt: Option<int>, timezone: string, daysOfWeek: seq<int>,
    dailyStart: Option<int>, dailyEnd: Option<int>, enabled: bool)

  datatype CandidateSnapshot = CandidateSnapshot(
    releaseDigest: Digest, schedule: Schedule, screens: seq<int>, expiresAt: int)

  datatype AssignmentState = Assigned | Withdrawn

  datatype AssignmentSnapshot = AssignmentSnapshot(
    releaseDigest: Digest, state: AssignmentState, schedule: Schedule, screens: seq<int>, previous: Option<Id>)

  datatype Digest =
    | OfRelease(release: ReleaseSnapshot)
    | OfCandidate(candidate: CandidateSnapshot)
    | OfAssignment(assignment: AssignmentSnapshot)

  // ------------------------------------------------------------------ candidates and assignments

  function CanonicalSchedule(s: Schedule): Schedule { s.(daysOfWeek := SortUnique(s.daysOfWeek)) }

  function CanonicalCandidate(
      releaseDigest: Digest, schedule: Schedule, screens: seq<int>, expiresAt: int): CandidateSnapshot
  {
    CandidateSnapshot(releaseDigest, CanonicalSchedule(schedule), SortUnique(screens), expiresAt)
  }

  function CanonicalAssignment(
    releaseDigest: Digest, state: AssignmentState, schedule: Schedule, screens: seq<int>,
    previous: Option<Id>): AssignmentSnapshot
  {
    AssignmentSnapshot(releaseDigest, state, CanonicalSchedule(schedule), SortUnique(screens), previous)
  }

  /** A stored canonical form is its own canonical form, so its digest can be recomputed from what is stored. */
  lemma {:induction false} CandidateIdempotent(
      releaseDigest: Digest, schedule: Schedule, screens: seq<int>, expiresAt: int)
    ensures var s := CanonicalCandidate(releaseDigest, schedule, screens, expiresAt);
            CanonicalCandidate(s.releaseDigest, s.schedule, s.screens, s.expiresAt) == s
  {
    SortUniqueIdempotent(schedule.daysOfWeek);
    SortUniqueIdempotent(screens);
  }

  /** Listing days or screens in another order, or more than once, gives the same digest. */
  lemma {:induction false} CandidateOrderIndependent(
      releaseDigest: Digest, s: Schedule, s': Schedule, screens: seq<int>, screens': seq<int>, expiresAt: int)
    requires s' == s.(daysOfWeek := s'.daysOfWeek)
    requires forall d :: d in s.daysOfWeek <==> d in s'.daysOfWeek
    requires forall d :: d in screens <==> d in screens'
    ensures CanonicalCandidate(releaseDigest, s, screens, expiresAt)
            == CanonicalCandidate(releaseDigest, s', screens', expiresAt)
  {
    SortUniqueOfSameElements(s.daysOfWeek, s'.daysOfWeek);
    SortUniqueOfSameElements(screens, screens');
  }

  // ------------------------------------------------------------------ releases

  datatype Frozen = Frozen(items: seq<FrozenItem>) | NoPlayableItems | AssetNotFound

  function AssetsById(assets: seq<Asset>): (m: map<Id, Asset>)
    ensures forall id :: id in m <==> exists k :: 0 <= k < |assets| && assets[k].id == id
    ensures forall id | id in m :: m[id] in assets && m[id].id == id
  {
    if assets == [] then map[] else
    var last := assets[|assets| - 1];
    assert assets == assets[..|assets| - 1] + [last];
    AssetsById(assets[..|assets| - 1])[last.id := last]
  }

  function ItemId(i: PlaylistItem): int { i.id }

  function ItemPosition(i: PlaylistItem): int { i.position }

  /** Items by position, those in one position by id. */
  function Ordered(items: seq<PlaylistItem>): seq<PlaylistItem> {
    SortBy(SortBy(items, ItemId), ItemPosition)
  }

  function FreezeItem(i: PlaylistItem, asset: Asset): FrozenItem {
    FrozenItem(i.id, asset, i.position, i.durationSeconds)
  }

  /** The frozen form of the items not yet frozen, given the positions already taken. */
  function Freeze(items: seq<PlaylistItem>, assets: map<Id, Asset>, taken: set<int>): Frozen {
    if items == [] then Frozen([])
    else if items[0].position in taken then NoPlayableItems
    else if items[0].asset !in assets then AssetNotFound
    else
      var rest := Freeze(items[1..], assets, taken + {items[0].position});
      if rest.Frozen? then Frozen([FreezeItem(items[0], assets[items[0].asset])] + rest.items) else rest
  }

  function FreezePlaylist(items: seq<PlaylistItem>, assets: seq<Asset>): Frozen {
    if items == [] then NoPlayableItems else Freeze(Ordered(items), AssetsById(assets), {})
  }

  method CanonicalReleaseItems(items: seq<PlaylistItem>, assets: seq<Asset>) returns (r: Frozen)
    ensures r == FreezePlaylist(items, assets)
  {
    hide SortBy;
    var byId := AssetsById(assets);
    var ordered := Ordered(items);
    SortByProperties(SortBy(items, ItemId), ItemPosition);
    SortByProperties(items, ItemId);
    SameMultisetSameMembers(ordered, SortBy(items, ItemId));
    SameMultisetSameMembers(SortBy(items, ItemId), items);
    if |ordered| == 0 {
      return NoPlayableItems;
    }
    var positions: set<int> := {};
    var frozen: seq<FrozenItem> := [];
    for k := 0 to |ordered|
      invariant var rest := Freeze(ordered[k..], byId, positions);
                Freeze(ordered, byId, {}) == if rest.Frozen? then Frozen(frozen + rest.items) else rest
    {
      var item := ordered[k];
      assert ordered[k..][1..] == ordered[k + 1..];
      if item.position in positions {
        return NoPlayableItems;
      }
      positions := positions + {item.position};
      if item.asset !in byId {
        return AssetNotFound;
      }
      frozen := frozen + [FreezeItem(item, byId[item.asset])];
    }
    return Frozen(frozen);
  }

  predicate DistinctPositions(items: seq<PlaylistItem>) {
    forall i, j | 0 <= i < j < |items| :: items[i].position != items[j].position
  }

  lemma {:induction false} FreezeSucceeds(items: seq<PlaylistItem>, assets: map<Id, Asset>, taken: set<int>)
    ensures Freeze(items, assets, taken).Frozen? <==>
            && DistinctPositions(items)
            && (forall k | 0 <= k < |items| :: items[k].position !in taken && items[k].asset in assets)
    ensures Freeze(items, assets, taken).Frozen? ==>
              var frozen := Freeze(items, assets, taken).items;
              && |frozen| == |items|
              && forall k | 0 <= k < |items| :: frozen[k] == FreezeItem(items[k], assets[items[k].asset])
  {
    if items != [] {
      var rest := items[1..];
      FreezeSucceeds(rest, assets, taken + {items[0].position});
      assert forall k | 0 <= k < |rest| :: rest[k] == items[k + 1];
      assert forall k | 0 < k < |items| :: items[k] == rest[k - 1];
    }
  }

  /**
   A playlist can be released exactly when it has items, no two of them share a position, and all
   their assets are known; the release lists them in strictly increasing position.
   */
  lemma {:induction false} ReleasableExactly(items: seq<PlaylistItem>, assets: seq<Asset>)
    ensures var r := FreezePlaylist(items, assets);
            && (r.Frozen? <==>
                  && items != [] && DistinctPositions(items)
                  && forall i | i in items :: exists k :: 0 <= k < |assets| && assets[k].id == i.asset)
            && (r.Frozen? ==>
                  && |r.items| == |items|
                  && (forall i, j | 0 <= i < j < |r.items| :: r.items[i].position < r.items[j].position)
                  && forall f | f in r.items ::
                       exists i :: i in items && f == FreezeItem(i, AssetsById(assets)[i.asset]))
  {
    hide SortBy, AssetsById;
    var byId, half, ordered := AssetsById(assets), SortBy(items, ItemId), Ordered(items);
    SortByProperties(items, ItemId);
    SortByProperties(half, ItemPosition);
    SameMultisetSameMembers(half, items);
    SameMultisetSameMembers(ordered, half);
    PositionsByMultiset(items, ordered);
    FreezeSucceeds(ordered, byId, {});
    assert forall k | 0 <= k < |ordered| :: ordered[k] in items;
    forall i | i in items ensures exists k :: 0 <= k < |ordered| && ordered[k] == i { assert i in ordered; }
  }

  /** The release does not depend on the order in which the playlist stores its items. */
  lemma {:induction false} ReleaseOrderIndependent(
      items: seq<PlaylistItem>, items': seq<PlaylistItem>, assets: seq<Asset>)
    requires multiset(items) == multiset(items') && DistinctPositions(items)
    ensures FreezePlaylist(items, assets) == FreezePlaylist(items', assets)
  {
    hide SortBy, AssetsById, Freeze;
    SortByProperties(items, ItemId);
    SortByProperties(items', ItemId);
    SameMultisetSameMembers(items, items');
    var half, half' := SortBy(items, ItemId), SortBy(items', ItemId);
    SameMultisetSameMembers(half, items);
    forall x, y | x in half && y in half && ItemPosition(x) == ItemPosition(y) ensures x == y {
      assert x in items && y in items;
      var i :| 0 <= i < |items| && items[i] == x;
      var j :| 0 <= j < |items| && items[j] == y;
    }
    SortByOfSameElements(half, half', ItemPosition);
  }

  lemma {:induction false} PositionsByMultiset(items: seq<PlaylistItem>, items': seq<PlaylistItem>)
    requires multiset(items) == multiset(items')
    ensures DistinctPositions(items) == DistinctPositions(items')
  {
    if !DistinctPositions(items) {
      var i, j :| 0 <= i < j < |items| && items[i].position == items[j].position;
      SharedPosition(items, items', i, j);
    }
    if !DistinctPositions(items') {
      var i, j :| 0 <= i < j < |items'| && items'[i].position == items'[j].position;
      SharedPosition(items', items, i, j);
    }
  }

  lemma {:induction false} TwiceCounts(items: seq<PlaylistItem>, i: nat, j: nat)
    requires i < j < |items| && items[i] == items[j]
    ensures multiset(items)[items[i]] >= 2
  {
    assert items == items[..j] + items[j..];
    assert items[i] in items[..j] && items[j] in items[j..];
  }

  lemma {:induction false} CountedTwice(items: seq<PlaylistItem>, x: PlaylistItem) returns (i: nat, j: nat)
    requires multiset(items)[x] >= 2
    ensures i < j < |items| && items[i] == items[j] == x
  {
    assert x in items;
    var k :| 0 <= k < |items| && items[k] == x;
    var front, back := items[..k], items[k + 1..];
    assert items == front + [x] + back;
    assert multiset(items) == multiset(front) + multiset(back) + multiset{x};
    assert x in front || x in back;
    if x in front {
      i :| 0 <= i < |front| && front[i] == x;
      j := k;
    } else {
      var l :| 0 <= l < |back| && back[l] == x;
      i, j := k, k + 1 + l;
    }
  }

  /** Two items of the list are at the position. */
  ghost predicate Shared(items: seq<PlaylistItem>, position: int) {
    exists i, j :: 0 <= i < j < |items| && items[i].position == items[j].position == position
  }

  lemma {:induction false} SharedPosition(items: seq<PlaylistItem>, items': seq<PlaylistItem>, i: nat, j: nat)
    requires multiset(items) == multiset(items') && i < j < |items| && items[i].position == items[j].position
    ensures Shared(items', items[i].position)
  {
    SameMultisetSameMembers(items, items');
    if items[i] != items[j] {
      assert items[i] in items && items[j] in items;
      var k :| 0 <= k < |items'| && items'[k] == items[i];
      var l :| 0 <= l < |items'| && items'[l] == items[j];
      assert items'[Min(k, l)].position == items'[Max(k, l)].position;
    } else {
      TwiceCounts(items, i, j);
      var k, l := CountedTwice(items', items[i]);
    }
  }

  // ------------------------------------------------------------------ why a playlist cannot be released

  /** By position, and within a position by id. */
  ghost predicate ByPositionThenId(items: seq<PlaylistItem>) {
    forall i, j | 0 <= i < j < |items| :: NotAfter(items[i], items[j])
  }

  predicate NotAfter(x: PlaylistItem, y: PlaylistItem) {
    x.position < y.position || (x.position == y.position && x.id <= y.id)
  }

  lemma {:induction false} ConsKeepsTies(x: PlaylistItem, s: seq<PlaylistItem>)
    requires ByPositionThenId(s) && forall y | y in s :: NotAfter(x, y)
    ensures ByPositionThenId([x] + s)
  {
    var r := [x] + s;
    forall i, j | 0 <= i < j < |r| ensures NotAfter(r[i], r[j]) {
      if i == 0 {
        assert s[j - 1] in s;
      } else {
        assert NotAfter(s[i - 1], s[j - 1]);
      }
    }
  }

  lemma {:induction false} PlaceKeepsTies(x: PlaylistItem, s: seq<PlaylistItem>)
    requires ByPositionThenId(s) && forall y | y in s :: x.id <= y.id
    ensures ByPositionThenId(PlaceBy(x, s, ItemPosition))
  {
    hide ByPositionThenId;
    if s != [] && x.position > s[0].position {
      RestKeepsTies(s);
      PlaceKeepsTies(x, s[1..]);
      PlaceByAdds(x, s[1..], ItemPosition);
      var rest := PlaceBy(x, s[1..], ItemPosition);
      forall y | y in rest ensures NotAfter(s[0], y) {
        assert y in multiset(rest);
        assert y == x || y in s[1..];
      }
      ConsKeepsTies(s[0], rest);
    } else {
      if s != [] { RestKeepsTies(s); }
      forall y | y in s ensures NotAfter(x, y) { assert y == s[0] || y in s[1..]; }
      ConsKeepsTies(x, s);
    }
  }

  lemma {:induction false} RestKeepsTies(s: seq<PlaylistItem>)
    requires s != [] && ByPositionThenId(s)
    ensures ByPositionThenId(s[1..]) && forall y | y in s[1..] :: NotAfter(s[0], y)
  {
    forall i, j | 0 <= i < j < |s[1..]| ensures NotAfter(s[1..][i], s[1..][j]) {
      assert NotAfter(s[i + 1], s[j + 1]);
    }
  }

  lemma {:induction false} SortKeepsTies(s: seq<PlaylistItem>)
    requires OrderedBy(s, ItemId)
    ensures ByPositionThenId(SortBy(s, ItemPosition))
  {
    if s != [] {
      SortKeepsTies(s[1..]);
      var rest := SortBy(s[1..], ItemPosition);
      SortByProperties(s[1..], ItemPosition);
      SameMultisetSameMembers(rest, s[1..]);
      forall y | y in rest ensures s[0].id <= y.id {
        assert y in s[1..];
        var k :| 0 <= k < |s[1..]| && s[1..][k] == y;
        assert ItemId(s[0]) <= ItemId(s[k + 1]);
      }
      PlaceKeepsTies(s[0], rest);
    }
  }

  /** The freeze stops at the first item whose position is taken or whose asset is unknown. */
  ghost predicate StopsAt(items: seq<PlaylistItem>, assets: map<Id, Asset>, taken: set<int>, m: nat, repeated: bool) {
    && m < |items|
    && (forall k | 0 <= k < m :: items[k].asset in assets && items[k].position !in taken)
    && (forall j, k | 0 <= j < k < m :: items[j].position != items[k].position)
    && var again := items[m].position in taken || exists j :: 0 <= j < m && items[j].position == items[m].position;
       if repeated then again else !again && items[m].asset !in assets
  }

  lemma {:induction false} FreezeStops(items: seq<PlaylistItem>, assets: map<Id, Asset>, taken: set<int>)
    ensures var r := Freeze(items, assets, taken);
            && (r.NoPlayableItems? ==> exists m: nat :: StopsAt(items, assets, taken, m, true))
            && (r.AssetNotFound? ==> exists m: nat :: StopsAt(items, assets, taken, m, false))
  {
    hide StopsAt;
    if items != [] {
      var first := items[0];
      if first.position in taken {
        StopsNow(items, assets, taken, true);
      } else if first.asset !in assets {
        StopsNow(items, assets, taken, false);
      } else {
        var more := taken + {first.position};
        FreezeStops(items[1..], assets, more);
        if Freeze(items[1..], assets, more).NoPlayableItems? {
          var m: nat :| StopsAt(items[1..], assets, more, m, true);
          StopsLater(items, assets, taken, m, true);
        } else if Freeze(items[1..], assets, more).AssetNotFound? {
          var m: nat :| StopsAt(items[1..], assets, more, m, false);
          StopsLater(items, assets, taken, m, false);
        }
      }
    }
  }

  lemma {:induction false} StopsNow(items: seq<PlaylistItem>, assets: map<Id, Asset>, taken: set<int>, repeated: bool)
    requires items != []
    requires if repeated then items[0].position in taken else items[0].position !in taken && items[0].asset !in assets
    ensures StopsAt(items, assets, taken, 0, repeated)
  {
  }

  lemma {:induction false} StopsLater(
      items: seq<PlaylistItem>, assets: map<Id, Asset>, taken: set<int>, m: nat, repeated: bool)
    requires items != [] && items[0].position !in taken && items[0].asset in assets
    requires StopsAt(items[1..], assets, taken + {items[0].position}, m, repeated)
    ensures StopsAt(items, assets, taken, m + 1, repeated)
  {
    var rest := items[1..];
    assert forall k | 0 < k < |items| :: items[k] == rest[k - 1];
    if rest[m].position == items[0].position { assert items[0].position == items[m + 1].position; }
    if exists j :: 0 <= j < m && rest[j].position == rest[m].position {
      var j :| 0 <= j < m && rest[j].position == rest[m].position;
      assert items[j + 1].position == items[m + 1].position;
    }
  }

  /** No item at the position has a smaller id. */
  ghost predicate LeadsPosition(items: seq<PlaylistItem>, i: PlaylistItem) {
    i in items && forall j | j in items && j.position == i.position :: i.id <= j.id
  }

  /**
   Which of the two troubles a refused freeze names: whichever comes first by position. At a position
   that is shared, the item with the smallest id decides.
   */
  lemma {:induction false} FreezeRefusal(items: seq<PlaylistItem>, assets: seq<Asset>)
    ensures var r, known := FreezePlaylist(items, assets), AssetsById(assets);
            && (r.NoPlayableItems? ==>
                  || items == []
                  || exists i ::
                       && LeadsPosition(items, i) && Shared(items, i.position) && i.asset in known
                       && forall j | j in items && j.position < i.position :: j.asset in known)
            && (r.AssetNotFound? ==>
                  exists i ::
                    && LeadsPosition(items, i) && i.asset !in known
                    && forall j | j in items && j.position < i.position :: !Shared(items, j.position))
  {
    hide SortBy, AssetsById, Shared, LeadsPosition, StopsAt, OrderedBy, ByPositionThenId;
    var known, half, ordered := AssetsById(assets), SortBy(items, ItemId), Ordered(items);
    SortByProperties(items, ItemId);
    SortByProperties(half, ItemPosition);
    SortKeepsTies(half);
    FreezeStops(ordered, known, {});
    var r := FreezePlaylist(items, assets);
    if items != [] && r.NoPlayableItems? {
      var m: nat :| StopsAt(ordered, known, {}, m, true);
      StopIsShared(items, ordered, known, m);
    }
    if items != [] && r.AssetNotFound? {
      var m: nat :| StopsAt(ordered, known, {}, m, false);
      StopIsMissing(items, ordered, known, m);
    }
  }

  lemma {:induction false} StopIsShared(
      items: seq<PlaylistItem>, ordered: seq<PlaylistItem>, known: map<Id, Asset>, m: nat)
    requires multiset(items) == multiset(ordered) && ByPositionThenId(ordered) && StopsAt(ordered, known, {}, m, true)
    ensures exists i ::
              && LeadsPosition(items, i) && Shared(items, i.position) && i.asset in known
              && forall j | j in items && j.position < i.position :: j.asset in known
  {
    SameMultisetSameMembers(items, ordered);
    var j :| 0 <= j < m && ordered[j].position == ordered[m].position;
    var i := ordered[j];
    assert i in ordered;
    SharedPosition(ordered, items, j, m);
    forall x | x in items && x.position == i.position ensures i.id <= x.id {
      var k :| 0 <= k < |ordered| && ordered[k] == x;
      assert k >= j;
    }
    forall x | x in items && x.position < i.position ensures x.asset in known {
      var k :| 0 <= k < |ordered| && ordered[k] == x;
      assert k < j;
    }
  }

  lemma {:induction false} StopIsMissing(
      items: seq<PlaylistItem>, ordered: seq<PlaylistItem>, known: map<Id, Asset>, m: nat)
    requires multiset(items) == multiset(ordered) && ByPositionThenId(ordered) && StopsAt(ordered, known, {}, m, false)
    ensures exists i ::
              && LeadsPosition(items, i) && i.asset !in known
              && forall j | j in items && j.position < i.position :: !Shared(items, j.position)
  {
    SameMultisetSameMembers(items, ordered);
    var i := ordered[m];
    assert i in ordered;
    forall x | x in items && x.position == i.position ensures i.id <= x.id {
      var k :| 0 <= k < |ordered| && ordered[k] == x;
      assert k >= m;
    }
    forall x | x in items && x.position < i.position ensures !Shared(items, x.position) {
      if Shared(items, x.position) {
        var a, b :| 0 <= a < b < |items| && items[a].position == items[b].position == x.position;
        SharedPosition(items, ordered, a, b);
      }
    }
  }
}
