/** The fixed-window request budget kept in memory (apps/api/src/utils/rate-limit.ts). */
module RateLimit {

  datatype Counter = Counter(count: nat, expiresAt: int)

  datatype Verdict = Verdict(allowed: bool, retryAfterSeconds: int)

  function CeilSeconds(milliseconds: int): int { -((-milliseconds) / 1000) }

  /** The counter a call at `now` lands in, after counting it. */
  function Counted(counters: map<string, Counter>, key: string, window: int, now: int): (c: Counter)
    ensures c.count >= 1
  {
    if key in counters && counters[key].expiresAt > now
    then counters[key].(count := counters[key].count + 1)
    else Counter(1, now + window)
  }

  function Answer(counter: Counter, maximum: int, now: int): Verdict {
    var seconds := CeilSeconds(counter.expiresAt - now);
    Verdict(counter.count <= maximum, if seconds <= 1 then 1 else seconds)
  }

  // ------------------------------------------------------------------ any history of calls

  /** One call: its key, the budget its caller states for it, and the clock when it is made. */
  datatype Call = Call(key: string, maximum: int, window: int, at: int)

  /** The table after a history of calls on a fresh budget. */
  function After(calls: seq<Call>): map<string, Counter> {
    if calls == [] then map[] else
    var last := calls[|calls| - 1];
    var before := After(calls[..|calls| - 1]);
    before[last.key := Counted(before, last.key, last.window, last.at)]
  }

  /** Whether call `i` was let through. */
  predicate Allowed(calls: seq<Call>, i: nat)
    requires i < |calls|
  {
    LastKeyCounted(calls[..i + 1]);
    Answer(After(calls[..i + 1])[calls[i].key], calls[i].maximum, calls[i].at).allowed
  }

  lemma {:induction false} LastKeyCounted(calls: seq<Call>)
    requires calls != []
    ensures calls[|calls| - 1].key in After(calls)
  {
  }

  /** The clock never runs backwards, and every call on `key` states maximum `m` and window `w`. */
  ghost predicate Steady(calls: seq<Call>, key: string, m: int, w: int) {
    && (forall i, j | 0 <= i < j < |calls| :: calls[i].at <= calls[j].at)
    && (forall i | 0 <= i < |calls| && calls[i].key == key :: calls[i].maximum == m && calls[i].window == w)
  }

  /** How many of the calls from `i` up to `j` were on `key` and let through. */
  function AllowedBetween(calls: seq<Call>, key: string, i: nat, j: nat): nat
    requires i <= j <= |calls|
  {
    if i == j then 0 else
    AllowedBetween(calls, key, i, j - 1) + if calls[j - 1].key == key && Allowed(calls, j - 1) then 1 else 0
  }

  /** Call `k` starts a new window for its key. */
  predicate Opens(calls: seq<Call>, key: string, k: nat)
    requires k < |calls|
  {
    var table := After(calls[..k]);
    calls[k].key == key && (key !in table || table[key].expiresAt <= calls[k].at)
  }

  function CountAt(calls: seq<Call>, key: string, i: nat): nat
    requires i <= |calls|
  {
    if key in After(calls[..i]) then After(calls[..i])[key].count else 0
  }

  lemma {:induction false} Advance(calls: seq<Call>, i: nat)
    requires i < |calls|
    ensures After(calls[..i + 1]) ==
            After(calls[..i])[calls[i].key := Counted(After(calls[..i]), calls[i].key, calls[i].window, calls[i].at)]
  {
    assert calls[..i + 1][..i] == calls[..i];
  }

  lemma {:induction false} CountsArePositive(calls: seq<Call>, key: string)
    ensures key in After(calls) ==> After(calls)[key].count >= 1
  {
    if calls != [] {
      CountsArePositive(calls[..|calls| - 1], key);
    }
  }

  /**
   While no window opens, except perhaps with the first call, the calls let through are all
   counted, on top of what the counter held if the first call does not open a window.
   */
  lemma {:induction false} WithinOneWindow(calls: seq<Call>, key: string, m: nat, w: int, i: nat, j: nat)
    requires i <= j <= |calls| && Steady(calls, key, m, w)
    requires forall k | i < k < j :: !Opens(calls, key, k)
    ensures AllowedBetween(calls, key, i, j) <= m
    ensures AllowedBetween(calls, key, i, j) <= CountAt(calls, key, j)
    ensures i < j && !Opens(calls, key, i) ==>
              && CountAt(calls, key, i) + AllowedBetween(calls, key, i, j) <= CountAt(calls, key, j)
              && (AllowedBetween(calls, key, i, j) > 0 ==>
                    CountAt(calls, key, i) + AllowedBetween(calls, key, i, j) <= m)
    decreases j - i
  {
    if i < j {
      WithinOneWindow(calls, key, m, w, i, j - 1);
      Advance(calls, j - 1);
      assert Opens(calls, key, j - 1) ==> j - 1 == i;
      if calls[j - 1].key == key && Allowed(calls, j - 1) {
        assert calls[..j - 1 + 1] == calls[..j];
        assert CountAt(calls, key, j) <= m;
      }
    }
  }

  /** The window opened by call `p` is the current one until it expires. */
  lemma {:induction false} WindowLasts(calls: seq<Call>, key: string, m: int, w: int, p: nat, k: nat)
    requires p < k <= |calls| && Steady(calls, key, m, w) && Opens(calls, key, p)
    requires forall j | p < j < k :: calls[j].at < calls[p].at + w
    ensures key in After(calls[..k]) && After(calls[..k])[key].expiresAt == calls[p].at + w
    decreases k
  {
    hide After;
    Advance(calls, k - 1);
    if p < k - 1 {
      WindowLasts(calls, key, m, w, p, k - 1);
    }
  }

  lemma {:induction false} AllowedSplits(calls: seq<Call>, key: string, i: nat, p: nat, j: nat)
    requires i <= p <= j <= |calls|
    ensures AllowedBetween(calls, key, i, j) == AllowedBetween(calls, key, i, p) + AllowedBetween(calls, key, p, j)
    decreases j
  {
    if p < j {
      AllowedSplits(calls, key, i, p, j - 1);
    }
  }

  /** The first call from `i` on, before `j`, that opens a window for `key`; `j` if none does. */
  function NextOpening(calls: seq<Call>, key: string, i: nat, j: nat): (r: nat)
    requires i <= j <= |calls|
    ensures i <= r <= j && (r < j ==> Opens(calls, key, r))
    ensures forall k | i <= k < r :: !Opens(calls, key, k)
    decreases j - i
  {
    if i == j || Opens(calls, key, i) then i else NextOpening(calls, key, i + 1, j)
  }

  lemma {:induction false} NothingBeforeTheFirst(calls: seq<Call>, key: string, i: nat, j: nat)
    requires i <= j <= |calls| && key !in After(calls[..i])
    requires forall k | i <= k < j :: !Opens(calls, key, k)
    ensures key !in After(calls[..j]) && AllowedBetween(calls, key, i, j) == 0
    decreases j
  {
    hide After;
    if i < j {
      NothingBeforeTheFirst(calls, key, i, j - 1);
      assert !Opens(calls, key, j - 1);
      Advance(calls, j - 1);
    }
  }

  /**
   The rate bound: any stretch of calls that fits in an interval as long as the window lets through
   at most 2m - 1 calls, one fewer than two full windows, because the call that opened the earlier
   of two windows lies before the interval.
   */
  lemma {:induction false} AtMostTwoWindows(calls: seq<Call>, key: string, m: nat, w: int, i: nat, j: nat, start: int)
    requires i <= j <= |calls| && Steady(calls, key, m, w)
    requires forall k | i <= k < j :: start <= calls[k].at < start + w
    ensures AllowedBetween(calls, key, i, j) <= if m == 0 then 0 else 2 * m - 1
  {
    var p := NextOpening(calls, key, i, j);
    AllowedSplits(calls, key, i, p, j);
    WithinOneWindow(calls, key, m, w, i, p);
    CountsArePositive(calls[..i], key);
    if key !in After(calls[..i]) {
      NothingBeforeTheFirst(calls, key, i, p);
    }
    forall k | p < k < j ensures !Opens(calls, key, k) {
      WindowLasts(calls, key, m, w, p, k);
    }
    WithinOneWindow(calls, key, m, w, p, j);
  }

  /** One call at the start of a window, the rest at its end, and a full budget right after it. */
  function Burst(key: string, m: nat, w: int): seq<Call> {
    seq(2 * m, k requires 0 <= k => Call(key, m, w, if k == 0 then 0 else if k < m then w - 1 else w))
  }

  lemma {:induction false} BurstCounters(key: string, m: nat, w: int, k: nat)
    requires w >= 1 && 1 <= k <= 2 * m
    ensures key in After(Burst(key, m, w)[..k])
    ensures After(Burst(key, m, w)[..k])[key] == if k <= m then Counter(k, w) else Counter(k - m, 2 * w)
    ensures AllowedBetween(Burst(key, m, w), key, 1, k) == k - 1
    ensures Allowed(Burst(key, m, w), k - 1)
  {
    var calls := Burst(key, m, w);
    Advance(calls, k - 1);
    if k > 1 {
      BurstCounters(key, m, w, k - 1);
    } else {
      assert calls[..0] == [];
    }
  }

  /** The bound is met: such a burst has 2m - 1 calls let through within less than one window. */
  lemma {:induction false} BoundIsTight(key: string, m: nat, w: int)
    requires m >= 1 && w >= 2
    ensures Steady(Burst(key, m, w), key, m, w)
    ensures forall k | 1 <= k < 2 * m :: w - 1 <= Burst(key, m, w)[k].at < w - 1 + w
    ensures AllowedBetween(Burst(key, m, w), key, 1, 2 * m) == 2 * m - 1
  {
    BurstCounters(key, m, w, 2 * m);
  }

  lemma {:induction false} UntouchedBetween(calls: seq<Call>, i: nat, j: nat)
    requires i < j <= |calls|
    requires forall k | i < k < j :: calls[k].key != calls[i].key
    ensures calls[i].key in After(calls[..i + 1]) && calls[i].key in After(calls[..j])
    ensures After(calls[..j])[calls[i].key] == After(calls[..i + 1])[calls[i].key]
    decreases j
  {
    hide After;
    Advance(calls, j - 1);
    if i < j - 1 {
      UntouchedBetween(calls, i, j - 1);
    }
  }

  /** Waiting as long as the answer says is enough, when nobody else uses the key meanwhile. */
  lemma {:induction false} RetryIsAllowed(calls: seq<Call>, i: nat, j: nat)
    requires i < j < |calls| && calls[j].key == calls[i].key && calls[j].maximum >= 1
    requires forall k | i < k < j :: calls[k].key != calls[i].key
    requires calls[i].key in After(calls[..i + 1])
    requires var told := Answer(After(calls[..i + 1])[calls[i].key], calls[i].maximum, calls[i].at);
             calls[j].at >= calls[i].at + 1000 * told.retryAfterSeconds
    ensures Allowed(calls, j)
  {
    UntouchedBetween(calls, i, j);
    Advance(calls, j);
  }

  // ------------------------------------------------------------------ the verdict, from the history alone

  /** The last of the first `n` calls on the key; -1 if there is none. */
  ghost function LastOn(calls: seq<Call>, key: string, n: nat): (j: int)
    requires n <= |calls|
    ensures -1 <= j < n && (j >= 0 ==> calls[j].key == key)
    ensures forall k | j < k < n :: calls[k].key != key
  {
    if n == 0 then -1 else if calls[n - 1].key == key then n - 1 else LastOn(calls, key, n - 1)
  }

  /** The call that opened the window call `i` falls in: that of the call before it on its key, if it lasts. */
  ghost function Opener(calls: seq<Call>, i: nat): (p: nat)
    requires i < |calls|
    ensures p <= i
  {
    var j := LastOn(calls, calls[i].key, i);
    if j >= 0 && calls[i].at < calls[Opener(calls, j)].at + calls[Opener(calls, j)].window then Opener(calls, j) else i
  }

  /** The calls on the key of call `i` from its window's opening up to itself. */
  ghost function InWindow(calls: seq<Call>, i: nat): set<nat>
    requires i < |calls|
  {
    set k: nat | Opener(calls, i) <= k <= i && calls[k].key == calls[i].key
  }

  lemma {:induction false} NeverOnKey(calls: seq<Call>, key: string, n: nat)
    requires n <= |calls| && forall k | 0 <= k < n :: calls[k].key != key
    ensures key !in After(calls[..n])
  {
    hide After;
    if n > 0 {
      NeverOnKey(calls, key, n - 1);
      Advance(calls, n - 1);
    } else {
      NoCalls();
    }
  }

  lemma {:induction false} NoCalls()
    ensures After([]) == map[]
  {
  }

  /** A call that opens a window is alone in it; any other joins the calls of the one before it. */
  lemma {:induction false} WindowGrows(calls: seq<Call>, i: nat)
    requires i < |calls|
    ensures var j := LastOn(calls, calls[i].key, i);
            if j < 0 || Opener(calls, i) == i then |InWindow(calls, i)| == 1
            else |InWindow(calls, i)| == |InWindow(calls, j)| + 1
  {
    var j := LastOn(calls, calls[i].key, i);
    if j < 0 || Opener(calls, i) == i {
      assert InWindow(calls, i) == {i};
    } else {
      assert InWindow(calls, i) == InWindow(calls, j) + {i};
    }
  }

  /** The counter after a call holds the calls of its window, and expires with the window. */
  lemma {:induction false} CounterIs(calls: seq<Call>, i: nat)
    requires i < |calls|
    ensures calls[i].key in After(calls[..i + 1])
    ensures var p := Opener(calls, i);
            After(calls[..i + 1])[calls[i].key] == Counter(|InWindow(calls, i)|, calls[p].at + calls[p].window)
  {
    hide After, InWindow;
    var key := calls[i].key;
    var j := LastOn(calls, key, i);
    Advance(calls, i);
    WindowGrows(calls, i);
    if j < 0 {
      NeverOnKey(calls, key, i);
    } else {
      CounterIs(calls, j);
      UntouchedBetween(calls, j, i);
    }
  }

  /**
   The verdict on every call: allowed exactly when its window, opened by the first call after the
   previous one ended, has seen at most the maximum; and told to wait the fewest whole seconds, at
   least one, until the window has ended.
   */
  lemma {:induction false} VerdictExactly(calls: seq<Call>, i: nat)
    requires i < |calls|
    ensures calls[i].key in After(calls[..i + 1])
    ensures var p, c := Opener(calls, i), calls[i];
            var r := Answer(After(calls[..i + 1])[c.key], c.maximum, c.at);
            && (r.allowed <==> |InWindow(calls, i)| <= c.maximum)
            && r.retryAfterSeconds >= 1
            && calls[p].at + calls[p].window <= c.at + 1000 * r.retryAfterSeconds
            && (r.retryAfterSeconds > 1 ==> c.at + 1000 * (r.retryAfterSeconds - 1) < calls[p].at + calls[p].window)
  {
    hide After, InWindow;
    CounterIs(calls, i);
  }

  // ------------------------------------------------------------------ the budget

  lemma {:induction false} OneMoreCall(calls: seq<Call>, c: Call)
    ensures After(calls + [c]) == After(calls)[c.key := Counted(After(calls), c.key, c.window, c.at)]
    ensures Allowed(calls + [c], |calls|)
            == Answer(Counted(After(calls), c.key, c.window, c.at), c.maximum, c.at).allowed
  {
    assert (calls + [c])[..|calls|] == calls;
    Advance(calls + [c], |calls|);
  }

  /** The wait that the last answer told is enough, if the next call comes after it. */
  lemma {:induction false} ToldWaitIsEnough(calls: seq<Call>, next: Call)
    requires calls != [] && calls[|calls| - 1].key == next.key && next.maximum >= 1 && next.key in After(calls)
    requires var last := calls[|calls| - 1];
             next.at >= last.at + 1000 * Answer(After(calls)[last.key], last.maximum, last.at).retryAfterSeconds
    ensures Allowed(calls + [next], |calls|)
  {
    assert (calls + [next])[..|calls| - 1 + 1] == calls;
    RetryIsAllowed(calls + [next], |calls| - 1, |calls|);
  }

  class MemoryRateLimitBudget {
    var counters: map<string, Counter>
    /** The calls made so far. */
    ghost var calls: seq<Call>

    ghost predicate Valid()
      reads this
    {
      counters == After(calls)
    }

    constructor ()
      ensures Valid() && counters == map[] && calls == []
    {
      counters, calls := map[], [];
    }

    /**
     Counts the call and answers it. Of the calls on the key within the last window at most 2m - 1
     have been let through, and a caller who waits as long as it is told will be let through.
     */
    method Consume(key: string, maximum: int, window: int, now: int) returns (r: Verdict)
      requires Valid()
      modifies this
      ensures Valid() && calls == old(calls) + [Call(key, maximum, window, now)]
      ensures counters == old(counters)[key := Counted(old(counters), key, window, now)]
      ensures r == Answer(counters[key], maximum, now) && r.allowed == Allowed(calls, |calls| - 1)
      ensures r.allowed <==> |InWindow(calls, |calls| - 1)| <= maximum
      ensures var opener := calls[Opener(calls, |calls| - 1)];
              && r.retryAfterSeconds >= 1 && opener.at + opener.window <= now + 1000 * r.retryAfterSeconds
              && (r.retryAfterSeconds > 1 ==> now + 1000 * (r.retryAfterSeconds - 1) < opener.at + opener.window)
      ensures maximum >= 0 && Steady(calls, key, maximum, window) ==>
                forall i: nat | i <= |calls| && (forall k | i <= k < |calls| :: now - window < calls[k].at <= now) ::
                  AllowedBetween(calls, key, i, |calls|) <= if maximum == 0 then 0 else 2 * maximum - 1
      ensures maximum >= 1 ==>
                forall at | at >= now + 1000 * r.retryAfterSeconds ::
                  Allowed(calls + [Call(key, maximum, window, at)], |calls|)
    {
      hide After, Allowed, AllowedBetween, Steady, InWindow, Opener;
      OneMoreCall(calls, Call(key, maximum, window, now));
      var counter := Counter(0, now + window);
      if key in counters && counters[key].expiresAt > now {
        counter := counters[key];
      }
      counter := counter.(count := counter.count + 1);
      counters := counters[key := counter];
      var seconds := CeilSeconds(counter.expiresAt - now);
      r := Verdict(counter.count <= maximum, if seconds <= 1 then 1 else seconds);
      calls := calls + [Call(key, maximum, window, now)];
      assert calls[..|calls| - 1 + 1] == calls;
      VerdictExactly(calls, |calls| - 1);
      if maximum >= 0 && Steady(calls, key, maximum, window) {
        forall i: nat | i <= |calls| && (forall k | i <= k < |calls| :: now - window < calls[k].at <= now)
          ensures AllowedBetween(calls, key, i, |calls|) <= if maximum == 0 then 0 else 2 * maximum - 1
        {
          AtMostTwoWindows(calls, key, maximum, window, i, |calls|, now - window + 1);
        }
      }
      if maximum >= 1 {
        forall at | at >= now + 1000 * r.retryAfterSeconds
          ensures Allowed(calls + [Call(key, maximum, window, at)], |calls|)
        {
          ToldWaitIsEnough(calls, Call(key, maximum, window, at));
        }
      }
    }
  }
}
