/** What a create has to meet before it changes anything, and what it freezes. */
module ReleasePreparation {
  import opened Common
  import opened Canonical
  import opened Releases
  import opened ReleaseDecisions

  // ------------------------------------------------------------------ the backlog, counted

  /** The candidates of the organization that are not published and, if asked, have not expired. */
  ghost function OpenCandidates(cs: seq<Candidate>, org: Id, after: Option<int>): set<nat> {
    set k: nat | k < |cs| && Counts(cs[k], org, after)
  }

  lemma {:induction false} CountOpenIsSize(cs: seq<Candidate>, org: Id, after: Option<int>)
    ensures CountOpen(cs, org, after) == |OpenCandidates(cs, org, after)|
  {
    hide Counts;
    if cs != [] {
      var n := |cs| - 1;
      CountOpenIsSize(cs[..n], org, after);
      var before, all := OpenCandidates(cs[..n], org, after), OpenCandidates(cs, org, after);
      assert n !in before;
      assert all == if Counts(cs[n], org, after) then before + {n} else before;
    }
  }

  // ------------------------------------------------------------------ the screens asked for

  lemma {:induction false} DistinctScreens(s: seq<int>)
    ensures |SortUnique(s)| == |SetOf(s)| && SetOf(SortUnique(s)) == SetOf(s)
  {
    DistinctSize(SortUnique(s));
    assert SetOf(SortUnique(s)) == SetOf(s);
  }

  // ------------------------------------------------------------------ the assets of the items

  lemma {:induction false} FoundMedia(media: seq<MediaRecord>, org: Id, id: Id)
    ensures var asset := FindMedia(media, org, id); asset.Some? ==> asset.value.id == id
  {
    if media != [] { FoundMedia(media[1..], org, id); }
  }

  /** The assets handed to the policy are exactly the stored ones of the items. */
  lemma {:induction false} AssetsAreStored(items: seq<PlaylistItem>, media: seq<MediaRecord>, org: Id, asset: Asset)
    ensures asset in AssetsOf(items, media, org) <==> exists i ::
              i in items && FindMedia(media, org, i.asset) == Some(asset)
  {
    if items != [] {
      AssetsAreStored(items[1..], media, org, asset);
      assert items == [items[0]] + items[1..];
      if asset in AssetsOf(items[1..], media, org) {
        var i :| i in items[1..] && FindMedia(media, org, i.asset) == Some(asset);
        assert i in items;
      }
      if FindMedia(media, org, items[0].asset) == Some(asset) { assert items[0] in items; }
    }
  }

  /** The freeze knows an item's asset exactly when it is stored, and then as it is stored. */
  lemma {:induction false} KnownAssets(items: seq<PlaylistItem>, media: seq<MediaRecord>, org: Id, i: PlaylistItem)
    requires i in items
    ensures var byId, stored := AssetsById(AssetsOf(items, media, org)), FindMedia(media, org, i.asset);
            && (i.asset in byId <==> stored.Some?)
            && (stored.Some? ==> byId[i.asset] == stored.value)
  {
    hide FindMedia;
    var assets := AssetsOf(items, media, org);
    var byId, stored := AssetsById(assets), FindMedia(media, org, i.asset);
    FoundMedia(media, org, i.asset);
    if stored.Some? {
      AssetsAreStored(items, media, org, stored.value);
      assert stored.value in assets;
      var k :| 0 <= k < |assets| && assets[k] == stored.value;
    }
    if i.asset in byId {
      AssetsAreStored(items, media, org, byId[i.asset]);
      var j :| j in items && FindMedia(media, org, j.asset) == Some(byId[i.asset]);
      FoundMedia(media, org, j.asset);
    }
  }

  // ------------------------------------------------------------------ the catalog

  /** The first playlist of the organization with the id. */
  ghost predicate StoredPlaylist(ps: seq<Playlist>, org: Id, id: Id, p: Playlist) {
    exists k: nat ::
      && k < |ps| && ps[k] == p && p.org == org && p.id == id
      && forall j: nat | j < k :: !(ps[j].org == org && ps[j].id == id)
  }

  /** The first asset of the organization with the id. */
  ghost predicate StoredAsset(media: seq<MediaRecord>, org: Id, id: Id, asset: Asset) {
    exists k: nat ::
      && k < |media| && media[k].asset == asset && media[k].org == org && asset.id == id
      && forall j: nat | j < k :: !(media[j].org == org && media[j].asset.id == id)
  }

  ghost predicate HasAsset(media: seq<MediaRecord>, org: Id, id: Id) {
    exists k: nat :: k < |media| && media[k].org == org && media[k].asset.id == id
  }

  /** The stored assets of the items, in item order. */
  ghost predicate StoredInOrder(items: seq<PlaylistItem>, media: seq<MediaRecord>, org: Id, assets: seq<Asset>) {
    if items == [] then assets == []
    else if HasAsset(media, org, items[0].asset) then
      && assets != [] && StoredAsset(media, org, items[0].asset, assets[0])
      && StoredInOrder(items[1..], media, org, assets[1..])
    else StoredInOrder(items[1..], media, org, assets)
  }

  lemma {:induction false} PlaylistIsStored(ps: seq<Playlist>, org: Id, id: Id)
    ensures var p := FindPlaylist(ps, org, id);
            && (p.Some? ==> StoredPlaylist(ps, org, id, p.value))
            && (p.None? ==> forall k: nat | k < |ps| :: !(ps[k].org == org && ps[k].id == id))
  {
    var p := FindPlaylist(ps, org, id);
    if ps != [] {
      PlaylistIsStored(ps[1..], org, id);
      assert forall k: nat | 0 < k < |ps| :: ps[k] == ps[1..][k - 1];
      if ps[0].org == org && ps[0].id == id {
        assert ps[0] == p.value;
      } else if p.Some? {
        var k: nat :| && k < |ps[1..]| && ps[1..][k] == p.value && p.value.org == org && p.value.id == id
                      && forall j: nat | j < k :: !(ps[1..][j].org == org && ps[1..][j].id == id);
        assert ps[k + 1] == p.value;
      }
    }
  }

  lemma {:induction false} AssetIsStored(media: seq<MediaRecord>, org: Id, id: Id)
    ensures var a := FindMedia(media, org, id);
            && (a.Some? ==> StoredAsset(media, org, id, a.value))
            && (a.Some? <==> HasAsset(media, org, id))
  {
    var a := FindMedia(media, org, id);
    if media != [] {
      var rest := media[1..];
      AssetIsStored(rest, org, id);
      assert forall k: nat | 0 < k < |media| :: media[k] == rest[k - 1];
      if media[0].org == org && media[0].asset.id == id {
        assert media[0].asset == a.value;
      } else {
        if a.Some? {
          var k: nat :| && k < |rest| && rest[k].asset == a.value && rest[k].org == org && a.value.id == id
                        && forall j: nat | j < k :: !(rest[j].org == org && rest[j].asset.id == id);
          assert media[k + 1].asset == a.value;
        }
        if HasAsset(media, org, id) {
          var k: nat :| k < |media| && media[k].org == org && media[k].asset.id == id;
          assert rest[k - 1] == media[k];
        }
      }
    }
  }

  lemma {:induction false} OneStoredAsset(media: seq<MediaRecord>, org: Id, id: Id, a: Asset, b: Asset)
    requires StoredAsset(media, org, id, a) && StoredAsset(media, org, id, b)
    ensures a == b
  {
  }

  lemma {:induction false} AssetsAreInOrder(items: seq<PlaylistItem>, media: seq<MediaRecord>, org: Id)
    ensures StoredInOrder(items, media, org, AssetsOf(items, media, org))
  {
    hide FindMedia, HasAsset, StoredAsset;
    if items != [] {
      AssetsAreInOrder(items[1..], media, org);
      AssetIsStored(media, org, items[0].asset);
      var found, rest := FindMedia(media, org, items[0].asset), AssetsOf(items[1..], media, org);
      if found.Some? { assert ([found.value] + rest)[1..] == rest; }
      assert [] + rest == rest;
    }
  }

  // ------------------------------------------------------------------ freezing

  /** The items of the playlist with their assets as stored, one for one, in strictly increasing position. */
  ghost predicate FrozenAs(items: seq<PlaylistItem>, media: seq<MediaRecord>, org: Id, frozen: seq<FrozenItem>) {
    && |frozen| == |items|
    && (forall j, k | 0 <= j < k < |frozen| :: frozen[j].position < frozen[k].position)
    && forall f | f in frozen ::
         exists i ::
           && i in items && f.id == i.id && f.position == i.position && f.durationSeconds == i.durationSeconds
           && StoredAsset(media, org, i.asset, f.asset)
  }

  /** Two items of the playlist are at the position. */
  ghost predicate Doubled(items: seq<PlaylistItem>, position: int) {
    exists i: nat, j: nat :: i < j < |items| && items[i].position == position && items[j].position == position
  }

  /** The item decides its position: it has the smallest id there. */
  ghost predicate Decides(items: seq<PlaylistItem>, i: PlaylistItem) {
    i in items && forall j | j in items && j.position == i.position :: i.id <= j.id
  }

  /** There is nothing to play, or the first trouble is a position taken twice. */
  ghost predicate Unplayable(items: seq<PlaylistItem>, media: seq<MediaRecord>, org: Id) {
    || items == []
    || exists i ::
         && Decides(items, i) && Doubled(items, i.position) && HasAsset(media, org, i.asset)
         && forall j | j in items && j.position < i.position :: HasAsset(media, org, j.asset)
  }

  /** The first trouble is an asset that is not stored. */
  ghost predicate Incomplete(items: seq<PlaylistItem>, media: seq<MediaRecord>, org: Id) {
    exists i ::
      && Decides(items, i) && !HasAsset(media, org, i.asset)
      && forall j | j in items && j.position < i.position :: !Doubled(items, j.position)
  }

  /** Nothing is in the way of a freeze: there are items, at positions of their own, with stored assets. */
  ghost predicate Freezable(items: seq<PlaylistItem>, media: seq<MediaRecord>, org: Id) {
    && items != []
    && (forall i: nat, j: nat | i < j < |items| :: items[i].position != items[j].position)
    && forall i | i in items :: HasAsset(media, org, i.asset)
  }

  lemma {:induction false} FreezeIs(items: seq<PlaylistItem>, media: seq<MediaRecord>, org: Id)
    ensures var r := FreezePlaylist(items, AssetsOf(items, media, org));
            && (r.Frozen? <==> Freezable(items, media, org))
            && (r.Frozen? ==> FrozenAs(items, media, org, r.items))
            && (r.NoPlayableItems? ==> Unplayable(items, media, org))
            && (r.AssetNotFound? ==> Incomplete(items, media, org))
  {
    hide FreezePlaylist, FindMedia, AssetsOf, AssetsById, HasAsset, StoredAsset;
    var assets := AssetsOf(items, media, org);
    var byId, r := AssetsById(assets), FreezePlaylist(items, assets);
    ReleasableExactly(items, assets);
    FreezeRefusal(items, assets);
    forall i | i in items
      ensures i.asset in byId <==> HasAsset(media, org, i.asset)
      ensures i.asset in byId ==> StoredAsset(media, org, i.asset, byId[i.asset])
    {
      KnownAssets(items, media, org, i);
      AssetIsStored(media, org, i.asset);
    }
    SharedMeansDoubled(items);
    if r.Frozen? {
      forall f | f in r.items
        ensures exists i ::
                  && i in items && f.id == i.id && f.position == i.position && f.durationSeconds == i.durationSeconds
                  && StoredAsset(media, org, i.asset, f.asset)
      {
        var i :| i in items && f == FreezeItem(i, byId[i.asset]);
        assert i.asset in byId;
      }
    }
    if r.NoPlayableItems? && items != [] {
      var i :| && LeadsPosition(items, i) && Shared(items, i.position) && i.asset in byId
               && forall j | j in items && j.position < i.position :: j.asset in byId;
      assert Decides(items, i) && Doubled(items, i.position) && HasAsset(media, org, i.asset);
    }
    if r.AssetNotFound? {
      var i :| && LeadsPosition(items, i) && i.asset !in byId
               && forall j | j in items && j.position < i.position :: !Shared(items, j.position);
      assert Decides(items, i) && !HasAsset(media, org, i.asset);
    }
  }

  lemma {:induction false} SharedMeansDoubled(items: seq<PlaylistItem>)
    ensures forall p :: Shared(items, p) <==> Doubled(items, p)
  {
  }

  // ------------------------------------------------------------------ the checks

  ghost function Unpublished(cs: seq<Candidate>, org: Id): set<nat> {
    set k: nat | k < |cs| && cs[k].org == org && cs[k].stage != Published
  }

  ghost function Pending(cs: seq<Candidate>, org: Id, now: int): set<nat> {
    set k: nat | k < |cs| && cs[k].org == org && cs[k].stage != Published && now < cs[k].expiresAt
  }

  ghost function Members(s: seq<int>): set<int> { set x | x in s }

  /** The first check that a create fails after collection, or the playlist frozen when it passes them all. */
  ghost predicate Checked(s: Store, org: Id, data: CandidateInput, policy: Policy, now: int, prepared: Prepared) {
    if !(1 <= |Members(data.screens)| <= 1000) then prepared == NotReady(ScreenNotFound)
    else if |Pending(s.candidates, org, now)| >= 100 then prepared == NotReady(TooLarge)
    else if |Unpublished(s.candidates, org)| >= 1000 then prepared == NotReady(TooLarge)
    else if forall k: nat | k < |s.playlists| :: !(s.playlists[k].org == org && s.playlists[k].id == data.playlist) then
      prepared == NotReady(PlaylistNotFound)
    else if !AllStored(s.screens, org, data.screens) then prepared == NotReady(ScreenNotFound)
    else
      exists p, assets ::
        && StoredPlaylist(s.playlists, org, data.playlist, p) && StoredInOrder(p.items, s.media, org, assets)
        && CheckedPlaylist(s, org, data, p, policy(assets, now), prepared)
  }

  ghost predicate CheckedPlaylist(
      s: Store, org: Id, data: CandidateInput, p: Playlist, failure: Option<Reason>, prepared: Prepared)
  {
    if failure.Some? then prepared == NotReady(failure.value)
    else if Freezable(p.items, s.media, org) then
      && prepared.Ready? && ListedInOrder(prepared.screens, data.screens)
      && prepared.snapshot == ReleaseSnapshot(p.id, p.updatedAt, p.name, p.description, prepared.snapshot.items)
      && FrozenAs(p.items, s.media, org, prepared.snapshot.items)
    else
      || (prepared == NotReady(NothingPlayable) && Unplayable(p.items, s.media, org))
      || (prepared == NotReady(AssetMissing) && Incomplete(p.items, s.media, org))
  }

  lemma {:induction false} BacklogIsCounted(cs: seq<Candidate>, org: Id, now: int)
    ensures CountOpen(cs, org, Some(now)) == |Pending(cs, org, now)|
    ensures CountOpen(cs, org, None) == |Unpublished(cs, org)|
  {
    CountOpenIsSize(cs, org, Some(now));
    CountOpenIsSize(cs, org, None);
    assert OpenCandidates(cs, org, Some(now)) == Pending(cs, org, now);
    assert OpenCandidates(cs, org, None) == Unpublished(cs, org);
  }

  lemma {:induction false} ScreensAreListed(ids: seq<int>)
    ensures ListedInOrder(SortUnique(ids), ids) && |SortUnique(ids)| == |Members(ids)|
  {
    DistinctScreens(ids);
    assert SetOf(ids) == Members(ids);
  }

  /** The checks of a create fail and succeed exactly as listed. */
  lemma {:induction false} ChecksAre(s: Store, org: Id, data: CandidateInput, policy: Policy, now: int)
    ensures Checked(s, org, data, policy, now, Prepare(s, org, data, policy, now))
  {
    hide FreezePlaylist, SortUnique, CountOpen, FindMedia, AssetsOf, ScreensExist, FindPlaylist, Pending, Unpublished,
         Members, StoredPlaylist, StoredInOrder, Freezable, FrozenAs, Unplayable, Incomplete, AllStored, ListedInOrder;
    ScreensAreListed(data.screens);
    BacklogIsCounted(s.candidates, org, now);
    PlaylistIsStored(s.playlists, org, data.playlist);
    var screens := SortUnique(data.screens);
    SameScreensStored(s.screens, org, screens, data.screens);
    var p := FindPlaylist(s.playlists, org, data.playlist);
    if p.Some? {
      FoundPlaylistIsThere(s.playlists, org, data.playlist, p.value);
      AssetsAreInOrder(p.value.items, s.media, org);
      FreezeIs(p.value.items, s.media, org);
      var assets, prepared := AssetsOf(p.value.items, s.media, org), Prepare(s, org, data, policy, now);
      if screens != [] && |screens| <= 1000 && CountOpen(s.candidates, org, Some(now)) < 100
         && CountOpen(s.candidates, org, None) < 1000 && ScreensExist(s.screens, org, screens)
      {
        assert CheckedPlaylist(s, org, data, p.value, policy(assets, now), prepared);
      }
    }
  }

  lemma {:induction false} FoundPlaylistIsThere(ps: seq<Playlist>, org: Id, id: Id, p: Playlist)
    requires StoredPlaylist(ps, org, id, p)
    ensures !forall k: nat | k < |ps| :: !(ps[k].org == org && ps[k].id == id)
  {
  }

  lemma {:induction false} SameScreensStored(stored: seq<Screen>, org: Id, ids: seq<int>, asked: seq<int>)
    requires ListedInOrder(ids, asked)
    ensures ScreensExist(stored, org, ids) <==> AllStored(stored, org, asked)
  {
    hide ScreensExist;
    StoredMeansExist(stored, org, ids);
  }

  lemma {:induction false} OneStoredPlaylist(ps: seq<Playlist>, org: Id, id: Id, p: Playlist, q: Playlist)
    requires StoredPlaylist(ps, org, id, p) && StoredPlaylist(ps, org, id, q)
    ensures p == q
  {
  }

  lemma {:induction false} OneOrder(
      items: seq<PlaylistItem>, media: seq<MediaRecord>, org: Id, a: seq<Asset>, b: seq<Asset>)
    requires StoredInOrder(items, media, org, a) && StoredInOrder(items, media, org, b)
    ensures a == b
  {
    hide HasAsset, StoredAsset;
    if items != [] {
      if HasAsset(media, org, items[0].asset) {
        OneStoredAsset(media, org, items[0].asset, a[0], b[0]);
        OneOrder(items[1..], media, org, a[1..], b[1..]);
        assert a == [a[0]] + a[1..] && b == [b[0]] + b[1..];
      } else {
        OneOrder(items[1..], media, org, a, b);
      }
    }
  }

  /**
   A create passes its checks exactly when between one and a thousand distinct screens are asked for
   and stored, there is room for another candidate, and the playlist is stored, can be frozen and is
   let pass by the policy.
   */
  lemma {:induction false} PreparedExactly(s: Store, org: Id, data: CandidateInput, policy: Policy, now: int)
    ensures Prepare(s, org, data, policy, now).Ready? <==>
              && 1 <= |Members(data.screens)| <= 1000 && AllStored(s.screens, org, data.screens)
              && |Pending(s.candidates, org, now)| < 100 && |Unpublished(s.candidates, org)| < 1000
              && exists p, assets ::
                   && StoredPlaylist(s.playlists, org, data.playlist, p) && StoredInOrder(p.items, s.media, org, assets)
                   && policy(assets, now).None? && Freezable(p.items, s.media, org)
  {
    hide Prepare, StoredPlaylist, StoredInOrder, Freezable, AllStored, Pending, Unpublished, Members, FrozenAs,
         Unplayable, Incomplete, ListedInOrder;
    ChecksAre(s, org, data, policy, now);
    if exists p, assets ::
      && StoredPlaylist(s.playlists, org, data.playlist, p) && StoredInOrder(p.items, s.media, org, assets)
      && policy(assets, now).None? && Freezable(p.items, s.media, org)
    {
      var p, assets :|
        && StoredPlaylist(s.playlists, org, data.playlist, p) && StoredInOrder(p.items, s.media, org, assets)
        && policy(assets, now).None? && Freezable(p.items, s.media, org);
      FoundPlaylistIsThere(s.playlists, org, data.playlist, p);
      forall q, others | StoredPlaylist(s.playlists, org, data.playlist, q)
                         && StoredInOrder(q.items, s.media, org, others)
        ensures q == p && others == assets
      {
        OneStoredPlaylist(s.playlists, org, data.playlist, p, q);
        OneOrder(p.items, s.media, org, assets, others);
      }
    }
  }
}
