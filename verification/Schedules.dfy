/**
 Zoned wall-clock resolution (apps/api/src/utils/schedule.ts).

 A time zone is a function giving the offset, in minutes, in force at every minute of
 universal time: the clock on the wall shows minute `x + off(x)`. Dates are day numbers,
 day 0 being Thursday 1 January 1970.
 */
module Schedules {
  import opened Common

  type Offset = int -> int

  datatype Boundary = Start | End

  const MAX_OFFSET := 900          // fifteen hours
  const SAMPLE_REACH := 36 * 60
  const SAMPLE_STEP := 6 * 60
  const SAMPLES := 13
  const MAX_CACHE_ENTRIES := 4096
  const DAY := 1440
  const MINUTE := 60_000

  function Wall(off: Offset, x: int): int { x + off(x) }

  // ------------------------------------------------------------------ the zone model

  predicate OffsetRange(o: int) { -MAX_OFFSET <= o <= MAX_OFFSET }

  ghost predicate Bounded(off: Offset) {
    forall x :: OffsetRange(off(x))
  }

  /** Between `lo` and `hi` the clocks change at most once, at `t`, from offset `a` to offset `b`. */
  ghost predicate ChangesOnce(off: Offset, lo: int, hi: int, t: int, a: int, b: int) {
    forall x | lo <= x <= hi :: off(x) == if x < t then a else b
  }

  /** The clocks change at most once within the 36 hours on either side of `desired` that the search samples. */
  ghost predicate RegularWith(off: Offset, desired: int, t: int, a: int, b: int) {
    ChangesOnce(off, desired - SAMPLE_REACH, desired + SAMPLE_REACH, t, a, b)
  }

  ghost predicate Regular(off: Offset, desired: int) {
    Bounded(off) && exists t, a, b :: RegularWith(off, desired, t, a, b)
  }

  // ------------------------------------------------------------------ what is promised

  /**
   What resolving wall minute `desired` means: the last (for a start) or first (for an end)
   instant showing it, or, when no instant does, the instant before which every clock reading
   is earlier and from which on every reading is later.
   */
  ghost predicate Resolves(off: Offset, desired: int, boundary: Boundary, r: int) {
    if exists x :: Wall(off, x) == desired then
      && Wall(off, r) == desired
      && forall x | Wall(off, x) == desired :: if boundary.Start? then x <= r else r <= x
    else
      forall x :: if x < r then Wall(off, x) < desired else Wall(off, x) > desired
  }

  lemma {:induction false} ResolutionIsUnique(off: Offset, desired: int, boundary: Boundary, r: int, r': int)
    requires Resolves(off, desired, boundary, r) && Resolves(off, desired, boundary, r')
    ensures r == r'
  {
    if !exists x :: Wall(off, x) == desired {
      assert r < r' ==> Wall(off, r) < desired && Wall(off, r) > desired;
      assert r' < r ==> Wall(off, r') < desired && Wall(off, r') > desired;
    }
  }

  // ------------------------------------------------------------------ the uncached search

  /** The sampled instants: every six hours for 36 hours on either side of `desired`. */
  function Samples(desired: int): (r: seq<int>)
    ensures |r| == SAMPLES
    ensures forall k | 0 <= k < SAMPLES :: r[k] == desired - SAMPLE_REACH + SAMPLE_STEP * k
  {
    seq(SAMPLES, k => desired - SAMPLE_REACH + SAMPLE_STEP * k)
  }

  /** The distinct offsets of the sampled instants, in the order they were met. */
  function Offsets(off: Offset, samples: seq<int>): (r: seq<int>)
    ensures forall x | x in samples :: off(x) in r
  {
    if samples == [] then [] else
    var before := Offsets(off, samples[..|samples| - 1]);
    var o := off(samples[|samples| - 1]);
    assert samples == samples[..|samples| - 1] + [samples[|samples| - 1]];
    if o in before then before else before + [o]
  }

  /** The instants `desired - o` that do show `desired`. */
  function Exact(off: Offset, desired: int, offsets: seq<int>): seq<int> {
    if offsets == [] then [] else
    var x := desired - offsets[0];
    (if Wall(off, x) == desired then [x] else []) + Exact(off, desired, offsets[1..])
  }

  function Bisect(off: Offset, before: int, low: int, high: int): int
    decreases high - low
  {
    if low + 1 < high then
      var middle := (low + high) / 2;
      if off(middle) == before then Bisect(off, before, middle, high) else Bisect(off, before, low, middle)
    else high
  }

  function GapSearch(off: Offset, desired: int, samples: seq<int>): Option<int> {
    if |samples| < 2 then None else
    var before, after := samples[0], samples[1];
    if off(before) == off(after) then GapSearch(off, desired, samples[1..]) else
    var transition := Bisect(off, off(before), before, after);
    if Wall(off, transition - 1) < desired < Wall(off, transition) then Some(transition)
    else GapSearch(off, desired, samples[1..])
  }

  /** The search without its cache; None is the RangeError. */
  function Uncached(off: Offset, desired: int, boundary: Boundary): Option<int> {
    var exact := SortUnique(Exact(off, desired, Offsets(off, Samples(desired))));
    if exact != [] then Some(if boundary.Start? then exact[|exact| - 1] else exact[0])
    else GapSearch(off, desired, Samples(desired))
  }

  // ------------------------------------------------------------------ the search is right

  lemma {:induction false} ExactMembers(off: Offset, desired: int, offsets: seq<int>, x: int)
    ensures x in Exact(off, desired, offsets) <==> desired - x in offsets && Wall(off, x) == desired
  {
    if offsets != [] {
      ExactMembers(off, desired, offsets[1..], x);
    }
  }

  lemma {:induction false} BisectFindsChange(off: Offset, low: int, high: int, t: int, a: int, b: int)
    requires low < t <= high && a != b
    requires ChangesOnce(off, low, high, t, a, b)
    ensures Bisect(off, a, low, high) == t
    decreases high - low
  {
    if low + 1 < high {
      var middle := (low + high) / 2;
      assert off(middle) == if middle < t then a else b;
      if off(middle) == a {
        BisectFindsChange(off, middle, high, t, a, b);
      } else {
        BisectFindsChange(off, low, middle, t, a, b);
      }
    }
  }

  /** An instant showing `desired` is found through the sampled offsets. */
  lemma {:induction false} ExactIsComplete(off: Offset, desired: int, x: int)
    requires Regular(off, desired)
    ensures Wall(off, x) == desired <==> x in SortUnique(Exact(off, desired, Offsets(off, Samples(desired))))
  {
    var t, a, b :| RegularWith(off, desired, t, a, b);
    var offsets := Offsets(off, Samples(desired));
    ExactMembers(off, desired, offsets, x);
    if Wall(off, x) == desired {
      assert OffsetRange(off(x));
      assert off(x) == if x < t then a else b;
      var first, last := Samples(desired)[0], Samples(desired)[SAMPLES - 1];
      assert off(first) in offsets && off(last) in offsets;
      assert desired - x == off(x);
    }
  }

  /** With no exact instant the change skips over `desired`, and the gap search lands on it. */
  lemma {:induction false} GapSearchFinds(off: Offset, desired: int, t: int, a: int, b: int, index: nat)
    requires RegularWith(off, desired, t, a, b)
    requires t + a <= desired < t + b
    requires index + 1 < SAMPLES && Samples(desired)[index] < t <= desired + SAMPLE_REACH
    ensures GapSearch(off, desired, Samples(desired)[index..]) == Some(t)
    decreases SAMPLES - index
  {
    var samples := Samples(desired)[index..];
    var before, after := samples[0], samples[1];
    assert off(before) == a;
    if t <= after {
      assert off(after) == b;
      BisectFindsChange(off, before, after, t, a, b);
      assert off(t - 1) == a && off(t) == b;
    } else {
      assert off(after) == a;
      assert samples[1..] == Samples(desired)[index + 1..];
      GapSearchFinds(off, desired, t, a, b, index + 1);
    }
  }

  lemma {:induction false} NoExactMeansGap(off: Offset, desired: int, t: int, a: int, b: int)
    requires Bounded(off)
    requires RegularWith(off, desired, t, a, b)
    requires forall x :: Wall(off, x) != desired
    ensures t + a <= desired < t + b
    ensures desired - SAMPLE_REACH < t <= desired + SAMPLE_REACH
    ensures forall x :: if x < t then Wall(off, x) < desired else Wall(off, x) > desired
  {
    var first, last := desired - SAMPLE_REACH, desired + SAMPLE_REACH;
    assert OffsetRange(off(first)) && OffsetRange(off(last));
    assert off(first) == if first < t then a else b;
    assert off(last) == if last < t then a else b;
    assert Wall(off, desired - off(first)) != desired && Wall(off, desired - off(last)) != desired;
    assert off(desired - off(first)) != off(first) && off(desired - off(last)) != off(last);
    forall x ensures if x < t then Wall(off, x) < desired else Wall(off, x) > desired {
      assert OffsetRange(off(x));
      if first <= x <= last {
        assert off(x) == if x < t then a else b;
        assert Wall(off, x) != desired;
      }
    }
  }

  /** Total and exact: the search never throws, and returns what `Resolves` promises. */
  lemma {:induction false} UncachedResolves(off: Offset, desired: int, boundary: Boundary)
    requires Regular(off, desired)
    ensures Uncached(off, desired, boundary).Some?
    ensures Resolves(off, desired, boundary, Uncached(off, desired, boundary).value)
  {
    var exact := SortUnique(Exact(off, desired, Offsets(off, Samples(desired))));
    forall x ensures Wall(off, x) == desired <==> x in exact { ExactIsComplete(off, desired, x); }
    if exact != [] {
      assert Wall(off, exact[0]) == desired by { assert exact[0] in exact; }
      assert Wall(off, exact[|exact| - 1]) == desired by { assert exact[|exact| - 1] in exact; }
    } else {
      var t, a, b :| RegularWith(off, desired, t, a, b);
      NoExactMeansGap(off, desired, t, a, b);
      GapSearchFinds(off, desired, t, a, b, 0);
      assert Samples(desired)[0..] == Samples(desired);
    }
  }

  lemma {:induction false} OffsetsAreSampled(off: Offset, samples: seq<int>, o: int)
    requires o in Offsets(off, samples)
    ensures exists k :: 0 <= k < |samples| && off(samples[k]) == o
  {
    var rest := samples[..|samples| - 1];
    if o in Offsets(off, rest) {
      OffsetsAreSampled(off, rest, o);
      var k :| 0 <= k < |rest| && off(rest[k]) == o;
      assert off(samples[k]) == o;
    } else {
      assert off(samples[|samples| - 1]) == o;
    }
  }

  /** Some sample has the offset. */
  ghost predicate Sampled(off: Offset, desired: int, o: int) {
    exists k :: 0 <= k < SAMPLES && off(Samples(desired)[k]) == o
  }

  /** The exact instants the search meets are those whose offset some sample has. */
  lemma {:induction false} ExactAreSampled(off: Offset, desired: int, x: int)
    ensures x in Exact(off, desired, Offsets(off, Samples(desired))) <==>
              Wall(off, x) == desired && Sampled(off, desired, off(x))
  {
    hide Offsets, Exact;
    var samples := Samples(desired);
    ExactMembers(off, desired, Offsets(off, samples), x);
    if Wall(off, x) == desired {
      assert desired - x == off(x);
      if off(x) in Offsets(off, samples) { OffsetsAreSampled(off, samples, off(x)); }
    }
  }

  /** The binary search between two neighbouring samples of different offsets ends at `r`. */
  ghost predicate BisectsTo(off: Offset, samples: seq<int>, k: nat, r: int) {
    && k + 1 < |samples| && off(samples[k]) != off(samples[k + 1])
    && Bisect(off, off(samples[k]), samples[k], samples[k + 1]) == r
  }

  /** The gap search returns an instant that skips the minute, found between two samples, if there is one. */
  lemma {:induction false} GapSearchExactly(off: Offset, desired: int, samples: seq<int>)
    ensures var g := GapSearch(off, desired, samples);
            g.Some? ==>
              && Wall(off, g.value - 1) < desired < Wall(off, g.value)
              && exists k: nat :: BisectsTo(off, samples, k, g.value)
    ensures GapSearch(off, desired, samples).None? ==>
              forall k: nat, r | BisectsTo(off, samples, k, r) :: !(Wall(off, r - 1) < desired < Wall(off, r))
  {
    hide Bisect;
    var g := GapSearch(off, desired, samples);
    if |samples| >= 2 {
      var rest := samples[1..];
      GapSearchExactly(off, desired, rest);
      forall k: nat, r | BisectsTo(off, samples, k, r) && k > 0 ensures BisectsTo(off, rest, k - 1, r) { }
      if g.Some? {
        if g == GapSearch(off, desired, rest) {
          var k: nat :| BisectsTo(off, rest, k, g.value);
          assert BisectsTo(off, samples, k + 1, g.value);
        } else {
          assert BisectsTo(off, samples, 0, g.value);
        }
      }
    }
  }

  /** What the thirteen samples have to meet for the minute to be resolved. */
  ghost predicate Met(off: Offset, desired: int, boundary: Boundary, r: int) {
    if exists x :: Wall(off, x) == desired then Sampled(off, desired, off(r))
    else exists k: nat :: BisectsTo(off, Samples(desired), k, r)
  }

  /**
   For any zone at all, the search keeps its promise exactly when the promised instant exists and the
   samples meet it: some sample has its offset or, in a gap, the bisection of two neighbouring samples
   ends there.
   */
  lemma {:induction false} ResolvesExactly(off: Offset, desired: int, boundary: Boundary)
    ensures var u := Uncached(off, desired, boundary);
            u.Some? && Resolves(off, desired, boundary, u.value) <==>
              exists r :: Resolves(off, desired, boundary, r) && Met(off, desired, boundary, r)
  {
    hide Exact, Offsets, Samples, GapSearch, BisectsTo, Sampled;
    var u := Uncached(off, desired, boundary);
    var exact := SortUnique(Exact(off, desired, Offsets(off, Samples(desired))));
    forall x ensures x in exact <==> Wall(off, x) == desired && Sampled(off, desired, off(x)) {
      ExactAreSampled(off, desired, x);
    }
    GapSearchExactly(off, desired, Samples(desired));
    assert exact != [] ==> exact[0] in exact && exact[|exact| - 1] in exact;
    if u.Some? && Resolves(off, desired, boundary, u.value) {
      assert Met(off, desired, boundary, u.value);
    }
    forall r | Resolves(off, desired, boundary, r) && Met(off, desired, boundary, r) ensures u == Some(r) {
      if exists x :: Wall(off, x) == desired {
        assert r in exact;
        assert Wall(off, u.value) == desired;
      } else {
        var k: nat :| BisectsTo(off, Samples(desired), k, r);
        assert Wall(off, r - 1) < desired < Wall(off, r);
        assert u.value - 1 < r <= u.value;
      }
    }
  }

  /** A zone an hour ahead for a single hour, between two samples. */
  function OneHourAhead(x: int): int { if 100 <= x < 160 then 60 else 0 }

  lemma {:induction false} NoOffsetSeen(samples: seq<int>)
    requires forall k | 0 <= k < |samples| :: OneHourAhead(samples[k]) == 0
    ensures Offsets(OneHourAhead, samples) == if samples == [] then [] else [0]
  {
    if samples != [] {
      NoOffsetSeen(samples[..|samples| - 1]);
    }
  }

  lemma {:induction false} ExactOfNoOffset()
    ensures Exact(OneHourAhead, 200, [0]) == [200]
  {
    assert Exact(OneHourAhead, 200, [0]) == [200] + Exact(OneHourAhead, 200, []);
  }

  lemma {:induction false} SingleIsSorted(x: int)
    ensures SortUnique([x]) == [x]
  {
  }

  /**
   Two changes within the sampled hours can escape the search: it ends the 200th minute at 200, though
   the clocks show it at 140.
   */
  lemma {:induction false} TwoChangesExample()
    ensures Bounded(OneHourAhead)
    ensures Uncached(OneHourAhead, 200, End) == Some(200) && Wall(OneHourAhead, 140) == 200
    ensures !Resolves(OneHourAhead, 200, End, 200)
  {
    hide GapSearch, Samples, Offsets, Exact, SortUnique;
    assert Exact(OneHourAhead, 200, Offsets(OneHourAhead, Samples(200))) == [200] by {
      NoOffsetSeen(Samples(200));
      ExactOfNoOffset();
    }
    SingleIsSorted(200);
    assert Wall(OneHourAhead, 140) == 200;
  }

  // ------------------------------------------------------------------ the cached search

  datatype Key = Key(zone: string, day: int, minute: int, boundary: Boundary)

  /** The module-level memo table of resolved wall minutes, and the search that fills it. */
  class WallMinutes {
    const zones: string -> Offset
    var cache: map<Key, int>

    function Answer(k: Key): Option<int> {
      Uncached(zones(k.zone), k.day * DAY + k.minute, k.boundary)
    }

    ghost predicate Valid()
      reads this
    {
      |cache| <= MAX_CACHE_ENTRIES && Sound(cache)
    }

    /** Every remembered minute is the one the search would find. */
    ghost predicate Sound(table: map<Key, int>) {
      forall k | k in table :: Answer(k) == Some(table[k])
    }

    constructor (zones: string -> Offset)
      ensures Valid() && cache == map[] && this.zones == zones
    {
      this.zones := zones;
      cache := map[];
    }

    method Resolve(day: int, minute: int, zone: string, boundary: Boundary) returns (r: Option<int>)
      requires Valid()
      modifies this
      ensures Valid()
      ensures r == Answer(Key(zone, day, minute, boundary))
      ensures cache == if Key(zone, day, minute, boundary) in old(cache) || r.None? then old(cache)
                       else Remember(old(cache), Key(zone, day, minute, boundary), r.value)
    {
      hide Uncached;
      var key := Key(zone, day, minute, boundary);
      if key in cache {
        return Some(cache[key]);
      }
      r := Search(zones(zone), day * DAY + minute, boundary);
      if r.Some? {
        RememberIsSound(key, r.value);
        cache := Remember(cache, key, r.value);
      }
    }

    method MatchesScheduleWindow(w: Window, at: int) returns (r: Option<bool>)
      requires Valid()
      modifies this
      ensures Valid()
      ensures r == Matches(zones(w.timezone), w, MinuteAt(at))
    {
      hide Uncached;
      var off := zones(w.timezone);
      var date := DateOf(off, MinuteAt(at));
      if w.daysOfWeek != [] && Weekday(date) !in w.daysOfWeek {
        return Some(false);
      }
      if w.dailyStart.Some? {
        var start := Resolve(date, w.dailyStart.value, w.timezone, Start);
        if start.None? { return None; }
        if at < start.value * MINUTE { return Some(false); }
      }
      if w.dailyEnd.Some? {
        var end := Resolve(date, w.dailyEnd.value, w.timezone, End);
        if end.None? { return None; }
        if at >= end.value * MINUTE { return Some(false); }
      }
      return Some(true);
    }

    method SchedulePlaybackEndsAt(w: Window, at: int) returns (r: Option<Option<int>>)
      requires Valid()
      modifies this
      ensures Valid()
      ensures var candidates := EndCandidates(zones(w.timezone), w, at);
              r == if candidates.None? then None
                   else Some(if candidates.value == [] then None else Some(Least(candidates.value)))
    {
      hide Uncached;
      var candidates: seq<int> := [];
      if w.endsAt.Some? {
        candidates := candidates + [w.endsAt.value];
      }
      if w.dailyEnd.Some? {
        var off := zones(w.timezone);
        var daily := Resolve(DateOf(off, MinuteAt(at)), w.dailyEnd.value, w.timezone, End);
        if daily.None? { return None; }
        if daily.value * MINUTE > at {
          candidates := candidates + [daily.value * MINUTE];
        }
      }
      return Some(if candidates == [] then None else Some(Least(candidates)));
    }

    lemma {:induction false} RememberIsSound(key: Key, value: int)
      requires Valid() && Answer(key) == Some(value)
      ensures Sound(Remember(cache, key, value))
    {
    }
  }

  /** Storing an answer: a full table is cleared first. */
  function Remember(cache: map<Key, int>, key: Key, value: int): (r: map<Key, int>)
    ensures |cache| <= MAX_CACHE_ENTRIES ==> |r| <= MAX_CACHE_ENTRIES
    ensures key in r && r[key] == value
    ensures forall k | k in r && k != key :: k in cache && r[k] == cache[k]
    ensures if |cache| < 4096 then forall k | k in cache :: k in r else r.Keys == {key}
  {
    var kept := if |cache| >= MAX_CACHE_ENTRIES then map[] else cache;
    assert kept[key := value].Keys == kept.Keys + {key};
    assert |kept[key := value].Keys| <= |kept.Keys| + 1;
    kept[key := value]
  }

  method Search(off: Offset, desired: int, boundary: Boundary) returns (r: Option<int>)
    ensures r == Uncached(off, desired, boundary)
  {
    var offsets, samples := TakeSamples(off, desired);
    var exact := SortUnique(Exact(off, desired, offsets));
    if exact != [] {
      return Some(if boundary.Start? then exact[|exact| - 1] else exact[0]);
    }
    r := FindGap(off, desired, samples);
  }

  lemma {:induction false} OffsetsOfLonger(off: Offset, samples: seq<int>, instant: int)
    ensures var before := Offsets(off, samples);
            Offsets(off, samples + [instant]) == if off(instant) in before then before else before + [off(instant)]
  {
    assert (samples + [instant])[..|samples|] == samples;
  }

  lemma {:induction false} NoOffsets(off: Offset)
    ensures Offsets(off, []) == []
  {
  }

  method TakeSamples(off: Offset, desired: int) returns (offsets: seq<int>, samples: seq<(int, int)>)
    ensures offsets == Offsets(off, Samples(desired))
    ensures |samples| == SAMPLES
    ensures forall j | 0 <= j < SAMPLES :: samples[j] == (Samples(desired)[j], off(Samples(desired)[j]))
  {
    hide Samples, Offsets;
    offsets, samples := [], [];
    ghost var instants := Samples(desired);
    NoOffsets(off);
    assert instants[..0] == [];
    for k := 0 to SAMPLES
      invariant offsets == Offsets(off, instants[..k])
      invariant |samples| == k && forall j | 0 <= j < k :: samples[j] == (instants[j], off(instants[j]))
    {
      var instant := desired - SAMPLE_REACH + SAMPLE_STEP * k;
      var offset := Wall(off, instant) - instant;
      assert instants[..k + 1] == instants[..k] + [instants[k]];
      OffsetsOfLonger(off, instants[..k], instants[k]);
      if offset !in offsets {
        offsets := offsets + [offset];
      }
      samples := samples + [(instant, offset)];
    }
    assert instants[..SAMPLES] == instants;
  }

  lemma {:induction false} GapSearchFrom(off: Offset, desired: int, samples: seq<int>, k: nat)
    requires 1 <= k <= |samples|
    ensures k < |samples| ==>
              var before, after := samples[k - 1], samples[k];
              var transition := Bisect(off, off(before), before, after);
              GapSearch(off, desired, samples[k - 1..]) ==
              if off(before) != off(after) && Wall(off, transition - 1) < desired < Wall(off, transition)
              then Some(transition) else GapSearch(off, desired, samples[k..])
    ensures k == |samples| ==> GapSearch(off, desired, samples[k - 1..]) == None
  {
    hide Bisect;
    if k < |samples| { assert samples[k - 1..][1..] == samples[k..]; }
  }

  method FindGap(off: Offset, desired: int, samples: seq<(int, int)>) returns (r: Option<int>)
    requires |samples| == SAMPLES
    requires forall j | 0 <= j < SAMPLES :: samples[j] == (Samples(desired)[j], off(Samples(desired)[j]))
    ensures r == GapSearch(off, desired, Samples(desired))
  {
    hide Bisect, GapSearch;
    ghost var instants := Samples(desired);
    assert instants[0..] == instants;
    for index := 1 to SAMPLES
      invariant GapSearch(off, desired, instants) == GapSearch(off, desired, instants[index - 1..])
    {
      var before, after := samples[index - 1], samples[index];
      GapSearchFrom(off, desired, instants, index);
      if before.1 != after.1 {
        var high := BinarySearch(off, before.1, before.0, after.0);
        var priorWall, nextWall := Wall(off, high - 1), Wall(off, high);
        if priorWall < desired && nextWall > desired {
          return Some(high);
        }
      }
    }
    GapSearchFrom(off, desired, instants, SAMPLES);
    return None;
  }

  method BinarySearch(off: Offset, before: int, from: int, to: int) returns (high: int)
    ensures high == Bisect(off, before, from, to)
  {
    var low;
    low, high := from, to;
    while low + 1 < high
      invariant Bisect(off, before, from, to) == Bisect(off, before, low, high)
      decreases high - low
    {
      var middle := (low + high) / 2;
      if Wall(off, middle) - middle == before {
        low := middle;
      } else {
        high := middle;
      }
    }
  }

  // ------------------------------------------------------------------ schedule windows

  /** The parts of a schedule the window test reads; minutes of the day are as the API accepts them. */
  datatype Window = Window(
    timezone: string, endsAt: Option<int>, daysOfWeek: seq<int>, dailyStart: Option<int>, dailyEnd: Option<int>)
  {
    predicate Valid() {
      && (dailyStart.Some? ==> 0 <= dailyStart.value < DAY)
      && (dailyEnd.Some? ==> 0 < dailyEnd.value <= DAY)
      && (dailyStart.Some? && dailyEnd.Some? ==> dailyStart.value < dailyEnd.value)
    }
  }

  function DateOf(off: Offset, x: int): int { Wall(off, x) / DAY }

  function MinuteOfDay(off: Offset, x: int): int { Wall(off, x) % DAY }

  function Weekday(day: int): int { (day + 4) % 7 }

  /** Whether the schedule plays during minute `x`; None when a boundary cannot be resolved. */
  function Matches(off: Offset, w: Window, x: int): Option<bool> {
    var date := DateOf(off, x);
    if w.daysOfWeek != [] && Weekday(date) !in w.daysOfWeek then Some(false) else
    var start := if w.dailyStart.None? then Some(x) else Uncached(off, date * DAY + w.dailyStart.value, Start);
    if start.None? then None else
    if x < start.value then Some(false) else
    var end := if w.dailyEnd.None? then Some(x + 1) else Uncached(off, date * DAY + w.dailyEnd.value, End);
    if end.None? then None else Some(x < end.value)
  }

  /** The whole minute that instant `at`, in milliseconds, falls in. */
  function MinuteAt(at: int): int { at / MINUTE }

  /** The instants, in milliseconds, that may end playback; None when the daily end cannot be resolved. */
  function EndCandidates(off: Offset, w: Window, at: int): Option<seq<int>> {
    var own := if w.endsAt.Some? then [w.endsAt.value] else [];
    if w.dailyEnd.None? then Some(own) else
    var daily := Uncached(off, DateOf(off, MinuteAt(at)) * DAY + w.dailyEnd.value, End);
    if daily.None? then None
    else Some(own + if daily.value * MINUTE > at then [daily.value * MINUTE] else [])
  }

  function Least(s: seq<int>): (r: int)
    requires s != []
    ensures r in s && forall x | x in s :: r <= x
  {
    if |s| == 1 then s[0] else
    var rest := Least(s[1..]);
    assert s == [s[0]] + s[1..];
    if s[0] <= rest then s[0] else rest
  }

  /** The clocks change at most once, at `t`, from 36 hours before the date begins to 36 hours after it ends. */
  ghost predicate RegularDate(off: Offset, date: int, t: int, a: int, b: int) {
    && Bounded(off) && OffsetRange(a) && OffsetRange(b)
    && ChangesOnce(off, date * DAY - SAMPLE_REACH, (date + 1) * DAY + SAMPLE_REACH, t, a, b)
  }

  /** Where a boundary lands, given the change at `t` from offset `a` to offset `b`. */
  function Landing(t: int, a: int, b: int, desired: int, boundary: Boundary): int {
    if boundary.Start? then
      if t <= desired - b then desired - b else if desired - a < t then desired - a else t
    else
      if desired - a < t then desired - a else if t <= desired - b then desired - b else t
  }

  lemma {:induction false} BoundaryLands(
      off: Offset, date: int, minute: int, boundary: Boundary, t: int, a: int, b: int)
    requires RegularDate(off, date, t, a, b) && 0 <= minute <= DAY
    ensures Uncached(off, date * DAY + minute, boundary) == Some(Landing(t, a, b, date * DAY + minute, boundary))
  {
    var desired := date * DAY + minute;
    assert RegularWith(off, desired, t, a, b);
    UncachedResolves(off, desired, boundary);
    var r, x := Uncached(off, desired, boundary).value, Landing(t, a, b, desired, boundary);
    assert Resolves(off, desired, boundary, r);
    ResolutionIsUnique(off, desired, boundary, r, x) by { LandingResolves(off, desired, boundary, t, a, b); }
  }

  lemma {:induction false} LandingResolves(off: Offset, desired: int, boundary: Boundary, t: int, a: int, b: int)
    requires Bounded(off) && OffsetRange(a) && OffsetRange(b) && RegularWith(off, desired, t, a, b)
    ensures Resolves(off, desired, boundary, Landing(t, a, b, desired, boundary))
  {
    var x := Landing(t, a, b, desired, boundary);
    if y :| Wall(off, y) == desired {
      assert OffsetRange(off(y));
      assert off(y) == if y < t then a else b;
      forall z | Wall(off, z) == desired ensures if boundary.Start? then z <= x else x <= z {
        assert OffsetRange(off(z));
        assert off(z) == if z < t then a else b;
      }
      assert off(x) == if x < t then a else b;
    } else {
      NoExactMeansGap(off, desired, t, a, b);
    }
  }

  predicate DayAllowed(w: Window, date: int) {
    w.daysOfWeek == [] || Weekday(date) in w.daysOfWeek
  }

  /** Minute `x` falls on `date` and the schedule plays then. */
  predicate Plays(off: Offset, w: Window, date: int, x: int) {
    DateOf(off, x) == date && Matches(off, w, x) == Some(true)
  }

  /** Minute `x` reads as a time on `date`, given the change at `t` from offset `a` to offset `b`. */
  predicate OnDate(date: int, t: int, a: int, b: int, x: int) {
    date * DAY <= x + (if x < t then a else b) < (date + 1) * DAY
  }

  lemma {:induction false} DateSpan(off: Offset, date: int, t: int, a: int, b: int, x: int)
    requires RegularDate(off, date, t, a, b)
    ensures DateOf(off, x) == date <==> OnDate(date, t, a, b, x)
  {
    assert OffsetRange(off(x));
    if date * DAY - SAMPLE_REACH <= x <= (date + 1) * DAY + SAMPLE_REACH {
      assert off(x) == if x < t then a else b;
    }
  }

  predicate PlaysByLandings(w: Window, date: int, t: int, a: int, b: int, x: int) {
    && DayAllowed(w, date)
    && OnDate(date, t, a, b, x)
    && (w.dailyStart.Some? ==> Landing(t, a, b, date * DAY + w.dailyStart.value, Start) <= x)
    && (w.dailyEnd.Some? ==> x < Landing(t, a, b, date * DAY + w.dailyEnd.value, End))
  }

  lemma {:induction false} PlaysBetweenLandings(off: Offset, w: Window, date: int, t: int, a: int, b: int, x: int)
    requires RegularDate(off, date, t, a, b) && w.Valid()
    ensures Plays(off, w, date, x) <==> PlaysByLandings(w, date, t, a, b, x)
    ensures DateOf(off, x) == date ==> Matches(off, w, x).Some?
  {
    hide Uncached;
    DateSpan(off, date, t, a, b, x);
    if DateOf(off, x) == date {
      if w.dailyStart.Some? { BoundaryLands(off, date, w.dailyStart.value, Start, t, a, b); }
      if w.dailyEnd.Some? { BoundaryLands(off, date, w.dailyEnd.value, End, t, a, b); }
    }
  }

  /**
   Soundness: a schedule plays only while the clock on the wall reads a minute of its daily
   window, on one of its days. When the clocks do not go back on the date it plays at all of them.
   */
  lemma {:induction false} WindowIsSound(off: Offset, w: Window, date: int, t: int, a: int, b: int, x: int)
    requires RegularDate(off, date, t, a, b) && w.Valid() && DateOf(off, x) == date
    ensures Matches(off, w, x) == Some(true) ==> InDailyWindow(off, w, x)
    ensures a <= b ==> (Matches(off, w, x) == Some(true) <==> InDailyWindow(off, w, x))
  {
    PlaysBetweenLandings(off, w, date, t, a, b, x);
    assert OffsetRange(off(x));
    assert off(x) == if x < t then a else b;
    assert MinuteOfDay(off, x) == Wall(off, x) - date * DAY;
  }

  predicate InDailyWindow(off: Offset, w: Window, x: int) {
    && DayAllowed(w, DateOf(off, x))
    && (w.dailyStart.Some? ==> w.dailyStart.value <= MinuteOfDay(off, x))
    && (w.dailyEnd.Some? ==> MinuteOfDay(off, x) < w.dailyEnd.value)
  }

  /** The date is on one of the schedule's days, day 3 being a Sunday; no days mean all days. */
  ghost predicate OnItsDays(w: Window, date: int) {
    w.daysOfWeek == [] || exists d :: d in w.daysOfWeek && 0 <= d < 7 && (date - 3 - d) % 7 == 0
  }

  lemma {:induction false} DaysAre(w: Window, date: int)
    ensures DayAllowed(w, date) <==> OnItsDays(w, date)
  {
    var d := (date + 4) % 7;
    if DayAllowed(w, date) && w.daysOfWeek != [] { assert d in w.daysOfWeek && (date - 3 - d) % 7 == 0; }
  }

  /** The minute `desired` of the wall clock is resolved to an instant at or before `x`. */
  ghost predicate Begun(off: Offset, desired: int, x: int) {
    exists r :: Resolves(off, desired, Start, r) && r <= x
  }

  ghost predicate NotOver(off: Offset, desired: int, x: int) {
    exists r :: Resolves(off, desired, End, r) && x < r
  }

  /**
   In a zone with at most one change near the date a schedule plays at a minute of the date exactly
   when the date is on one of its days, its daily start, as resolved, has come, and its daily end, as
   resolved, has not.
   */
  lemma {:induction false} MatchesExactly(off: Offset, w: Window, date: int, t: int, a: int, b: int, x: int)
    requires RegularDate(off, date, t, a, b) && w.Valid() && date * 1440 <= x + off(x) < (date + 1) * 1440
    ensures Matches(off, w, x).Some?
    ensures Matches(off, w, x).value <==>
              && OnItsDays(w, date)
              && (w.dailyStart.Some? ==> Begun(off, date * 1440 + w.dailyStart.value, x))
              && (w.dailyEnd.Some? ==> NotOver(off, date * 1440 + w.dailyEnd.value, x))
  {
    hide Uncached, Resolves, OnItsDays;
    DaysAre(w, date);
    assert DateOf(off, x) == date;
    if w.dailyStart.Some? {
      var desired := date * 1440 + w.dailyStart.value;
      ResolvedOnDate(off, date, desired, Start, t, a, b);
      assert Resolves(off, desired, Start, Uncached(off, desired, Start).value);
    }
    if w.dailyEnd.Some? {
      var desired := date * 1440 + w.dailyEnd.value;
      ResolvedOnDate(off, date, desired, End, t, a, b);
      assert Resolves(off, desired, End, Uncached(off, desired, End).value);
    }
  }

  /** A boundary on the date is resolved, and to one instant only. */
  lemma {:induction false} ResolvedOnDate(
      off: Offset, date: int, desired: int, boundary: Boundary, t: int, a: int, b: int)
    requires RegularDate(off, date, t, a, b) && date * DAY <= desired <= (date + 1) * DAY
    ensures && Uncached(off, desired, boundary).Some?
            && forall r :: Resolves(off, desired, boundary, r) <==> r == Uncached(off, desired, boundary).value
  {
    hide Uncached, Resolves;
    assert RegularWith(off, desired, t, a, b);
    UncachedResolves(off, desired, boundary);
    forall r | Resolves(off, desired, boundary, r) ensures r == Uncached(off, desired, boundary).value {
      ResolutionIsUnique(off, desired, boundary, r, Uncached(off, desired, boundary).value);
    }
  }

  /** On one date the schedule plays over a single stretch of time: once it stops it does not resume. */
  ghost predicate PlaysOnce(off: Offset, w: Window, date: int) {
    forall x, y, z | x < y < z && Plays(off, w, date, x) && Plays(off, w, date, z) :: Plays(off, w, date, y)
  }

  /**
   Clocks that go back across midnight reopen the date for a schedule that leaves the daily bound
   on that side unset: across the midnight that began it when there is no daily start (and the
   daily end is not already past), or across the midnight that ends it when there is no daily end.
   */
  predicate Reopens(w: Window, date: int, t: int, a: int, b: int) {
    && DayAllowed(w, date)
    && ( || ( && w.dailyStart.None?
              && t + b < date * DAY < t + a
              && (w.dailyEnd.None? || t + a <= date * DAY + w.dailyEnd.value))
         || ( && w.dailyEnd.None?
              && t + b < (date + 1) * DAY < t + a
              && (w.dailyStart.None? || date * DAY + w.dailyStart.value < t + b)))
  }

  /**
   The documented promise that a schedule does not reactivate when clocks move backward, with the
   exact condition under which the code keeps it.
   */
  lemma {:induction false} PlaysOnceUnlessReopened(off: Offset, w: Window, date: int, t: int, a: int, b: int)
    requires RegularDate(off, date, t, a, b) && w.Valid()
    ensures PlaysOnce(off, w, date) <==> !Reopens(w, date, t, a, b)
  {
    hide Matches;
    forall x ensures Plays(off, w, date, x) <==> PlaysByLandings(w, date, t, a, b, x) {
      PlaysBetweenLandings(off, w, date, t, a, b, x);
    }
    var midnight := date * DAY;
    if Reopens(w, date, t, a, b) {
      if w.dailyStart.None? && t + b < midnight < t + a && (w.dailyEnd.None? || t + a <= midnight + w.dailyEnd.value) {
        var x, y, z := midnight - a, t, midnight - b;
        assert Plays(off, w, date, x) && !Plays(off, w, date, y) && Plays(off, w, date, z);
      } else {
        var x, y := midnight + DAY - a - 1, midnight + DAY - a;
        var z := if midnight - b <= t then t else midnight - b;
        assert Plays(off, w, date, x) && !Plays(off, w, date, y) && Plays(off, w, date, z);
      }
    }
  }

  /** Clocks going back from 00:30 to 23:30 of the day before: a schedule for Sundays plays, stops and plays again. */
  lemma {:induction false} ReactivationExample()
    ensures var off: Offset := x => if x < 4350 then 0 else -60;
            var sundays := Window("", None, [0], None, None);
            && Plays(off, sundays, 3, 4349) && !Plays(off, sundays, 3, 4350) && Plays(off, sundays, 3, 4380)
  {
  }

  /**
   The playback end of a schedule that is playing, and has not reached its own end, is later than
   now; until then it goes on playing on that date, and from then on it is over.
   */
  lemma {:induction false} PlaybackEndIsAhead(off: Offset, w: Window, date: int, t: int, a: int, b: int, at: int)
    requires RegularDate(off, date, t, a, b) && w.Valid()
    requires Plays(off, w, date, MinuteAt(at)) && (w.endsAt.Some? ==> at < w.endsAt.value)
    ensures EndCandidates(off, w, at).Some?
    ensures EndCandidates(off, w, at).value == [] <==> w.endsAt.None? && w.dailyEnd.None?
    ensures EndCandidates(off, w, at).value != [] ==>
              var end := Least(EndCandidates(off, w, at).value);
              && at < end
              && (forall y | at <= y < end && DateOf(off, MinuteAt(y)) == date ::
                    Plays(off, w, date, MinuteAt(y)) && (w.endsAt.Some? ==> y < w.endsAt.value))
              && (forall y | end <= y ::
                    !Plays(off, w, date, MinuteAt(y)) || (w.endsAt.Some? && w.endsAt.value <= y))
  {
    hide Uncached;
    forall y ensures Plays(off, w, date, y) <==> PlaysByLandings(w, date, t, a, b, y) {
      PlaysBetweenLandings(off, w, date, t, a, b, y);
    }
    forall y ensures DateOf(off, y) == date <==> OnDate(date, t, a, b, y) { DateSpan(off, date, t, a, b, y); }
    if w.dailyEnd.Some? { BoundaryLands(off, date, w.dailyEnd.value, End, t, a, b); }
  }
}
