/** The filter, sort, slice idiom of the maintenance routines: the first few eligible records in an order. */
module Batches {
  import opened Common

  /** Which of two records, by position, comes first. */
  type Order = (nat, nat) -> bool

  /** Irreflexive, transitive and total on the first `n` positions. */
  ghost predicate StrictOrder(before: Order, n: nat) {
    && (forall i | 0 <= i < n :: !before(i, i))
    && (forall i, j, k | 0 <= i < n && 0 <= j < n && 0 <= k < n && before(i, j) && before(j, k) :: before(i, k))
    && (forall i, j | 0 <= i < n && 0 <= j < n && i != j :: before(i, j) || before(j, i))
  }

  ghost predicate Ascending(s: seq<nat>, before: Order) {
    forall a, b | 0 <= a < b < |s| :: before(s[a], s[b])
  }

  ghost predicate Within(s: seq<nat>, n: nat) { forall a | 0 <= a < |s| :: s[a] < n }

  /** The eligible positions that come before position `i`. */
  ghost function Ahead(n: nat, eligible: nat -> bool, before: Order, i: nat): set<nat> {
    set j | 0 <= j < n && eligible(j) && before(j, i)
  }

  lemma {:induction false} AscendingIsDistinct(s: seq<nat>, before: Order, n: nat)
    requires StrictOrder(before, n) && Within(s, n) && Ascending(s, before)
    ensures Distinct(s)
  {
  }

  /** In the sorted list of the eligible positions, as many come before one as stand in front of it. */
  lemma {:induction false} RankIsPlace(n: nat, eligible: nat -> bool, before: Order, s: seq<nat>, k: nat)
    requires StrictOrder(before, n) && Within(s, n) && Ascending(s, before) && k < |s|
    requires forall i | 0 <= i < n :: i in s <==> eligible(i)
    ensures |Ahead(n, eligible, before, s[k])| == k
  {
    var front := s[..k];
    AscendingIsDistinct(s, before, n);
    DistinctSize(front);
    forall j ensures j in Ahead(n, eligible, before, s[k]) <==> j in SetOf(front) {
      if j in Ahead(n, eligible, before, s[k]) {
        var a :| 0 <= a < |s| && s[a] == j;
        assert a < k;
        assert front[a] == j;
      }
      if j in SetOf(front) {
        var a :| 0 <= a < |front| && front[a] == j;
        assert s[a] == j && before(s[a], s[k]);
      }
    }
    assert Ahead(n, eligible, before, s[k]) == SetOf(front);
  }

  /** Behind the first position that does not come before `x`, everything comes after it. */
  lemma {:induction false} RestComesAfter(x: nat, s: seq<nat>, k: nat, before: Order, n: nat)
    requires StrictOrder(before, n) && x < n && x !in s && Within(s, n) && Ascending(s, before)
    requires k < |s| && !before(s[k], x)
    ensures forall a | k <= a < |s| :: before(x, s[a])
  {
    assert s[k] in s && before(x, s[k]);
    forall a | k <= a < |s| ensures before(x, s[a]) {
      assert a == k || before(s[k], s[a]);
    }
  }

  lemma {:induction false} PlacedIsAscending(x: nat, s: seq<nat>, k: nat, before: Order)
    requires k <= |s| && Ascending(s, before)
    requires (forall a | 0 <= a < k :: before(s[a], x)) && (forall a | k <= a < |s| :: before(x, s[a]))
    ensures Ascending(s[..k] + [x] + s[k..], before)
  {
    var r := s[..k] + [x] + s[k..];
    assert forall a | 0 <= a < k :: r[a] == s[a];
    assert forall a | k < a < |r| :: r[a] == s[a - 1];
  }

  /** Insertion into its place: behind everything that comes before it. */
  method Place(x: nat, s: seq<nat>, before: Order, n: nat) returns (r: seq<nat>)
    requires StrictOrder(before, n) && x < n && x !in s && Within(s, n) && Ascending(s, before)
    ensures Within(r, n) && Ascending(r, before)
    ensures forall y :: y in r <==> y == x || y in s
  {
    hide StrictOrder, Ascending;
    var k := 0;
    while k < |s| && before(s[k], x)
      invariant k <= |s| && forall a | 0 <= a < k :: before(s[a], x)
    {
      k := k + 1;
    }
    if k < |s| { RestComesAfter(x, s, k, before, n); }
    PlacedIsAscending(x, s, k, before);
    r := s[..k] + [x] + s[k..];
    assert s == s[..k] + s[k..];
  }

  /** The first `limit` eligible positions below `n`, in order. */
  method Batch(n: nat, eligible: nat -> bool, before: Order, limit: nat) returns (batch: seq<nat>)
    requires StrictOrder(before, n)
    ensures Within(batch, n) && Distinct(batch) && |batch| <= limit
    ensures forall i | 0 <= i < n :: i in batch <==> eligible(i) && |Ahead(n, eligible, before, i)| < limit
  {
    hide StrictOrder, Ahead;
    var found: seq<nat> := [];
    for i := 0 to n
      invariant Within(found, n) && Distinct(found)
      invariant forall j :: j in found <==> 0 <= j < i && eligible(j)
    {
      if eligible(i) {
        found := found + [i];
      }
    }
    var sorted: seq<nat> := [];
    for k := 0 to |found|
      invariant Within(sorted, n) && Ascending(sorted, before)
      invariant forall j :: j in sorted <==> j in found[..k]
    {
      assert found[k] !in found[..k];
      sorted := Place(found[k], sorted, before, n);
      assert found[..k + 1] == found[..k] + [found[k]];
    }
    assert found[..|found|] == found;
    AscendingIsDistinct(sorted, before, n);
    batch := if |sorted| <= limit then sorted else sorted[..limit];
    forall i | 0 <= i < n ensures i in batch <==> eligible(i) && |Ahead(n, eligible, before, i)| < limit {
      if eligible(i) {
        var k :| 0 <= k < |sorted| && sorted[k] == i;
        RankIsPlace(n, eligible, before, sorted, k);
        assert k < |batch| ==> batch[k] == i;
        if i in batch {
          var l :| 0 <= l < |batch| && batch[l] == i;
          assert sorted[l] == i;
        }
      }
    }
  }

  // ------------------------------------------------------------------ the batch, said without ranks

  /** All that is eligible, if that is few enough; else as many as allowed, each before whatever is left out. */
  ghost predicate FirstFew(n: nat, eligible: nat -> bool, before: Order, chosen: set<nat>, limit: nat) {
    && (forall i | i in chosen :: i < n && eligible(i))
    && |chosen| <= limit
    && ((exists i: nat :: i < n && eligible(i) && i !in chosen) ==> |chosen| == limit)
    && forall i: nat, j: nat | i in chosen && j < n && eligible(j) && j !in chosen :: before(i, j)
  }

  lemma {:induction false} Smaller(a: set<nat>, b: set<nat>)
    requires a <= b
    ensures |a| <= |b|
  {
    if a != b {
      var x :| x in b && x !in a;
      Smaller(a, b - {x});
    }
  }

  /** Of finitely many positions one comes before all others. */
  lemma {:induction false} FirstOf(xs: set<nat>, before: Order, n: nat) returns (x: nat)
    requires xs != {} && StrictOrder(before, n) && forall i | i in xs :: i < n
    ensures x in xs && forall i | i in xs && i != x :: before(x, i)
  {
    var z :| z in xs;
    x := z;
    var rest := xs - {z};
    if rest != {} {
      var y := FirstOf(rest, before, n);
      assert before(z, y) || before(y, z);
      x := if before(y, z) then y else z;
    }
    forall i | i in xs && i != x ensures before(x, i) {
      assert i == z || i in rest;
    }
  }

  /** ... and one behind all others. */
  lemma {:induction false} LastOf(xs: set<nat>, before: Order, n: nat) returns (x: nat)
    requires xs != {} && StrictOrder(before, n) && forall i | i in xs :: i < n
    ensures x in xs && forall i | i in xs && i != x :: before(i, x)
  {
    var z :| z in xs;
    x := z;
    var rest := xs - {z};
    if rest != {} {
      var y := LastOf(rest, before, n);
      assert before(z, y) || before(y, z);
      x := if before(z, y) then y else z;
    }
    forall i | i in xs && i != x ensures before(i, x) {
      assert i == z || i in rest;
    }
  }

  lemma {:induction false} ChosenComeFirst(
      n: nat, eligible: nat -> bool, before: Order, limit: nat, i: nat, j: nat)
    requires StrictOrder(before, n) && i < n && j < n && eligible(i) && eligible(j) && i != j
    requires |Ahead(n, eligible, before, i)| < limit <= |Ahead(n, eligible, before, j)|
    ensures before(i, j)
  {
    assert before(i, j) || before(j, i);
    if before(j, i) {
      forall k | k in Ahead(n, eligible, before, j) ensures k in Ahead(n, eligible, before, i) { }
      Smaller(Ahead(n, eligible, before, j), Ahead(n, eligible, before, i));
    }
  }

  lemma {:induction false} AtMostLimit(n: nat, eligible: nat -> bool, before: Order, chosen: set<nat>, limit: nat)
    requires StrictOrder(before, n)
    requires forall i: nat | i in chosen :: i < n && eligible(i) && |Ahead(n, eligible, before, i)| < limit
    ensures |chosen| <= limit
  {
    if chosen != {} {
      var last := LastOf(chosen, before, n);
      assert chosen - {last} <= Ahead(n, eligible, before, last);
      Smaller(chosen - {last}, Ahead(n, eligible, before, last));
    }
  }

  lemma {:induction false} AtLeastLimit(
      n: nat, eligible: nat -> bool, before: Order, chosen: set<nat>, limit: nat, j: nat)
    requires StrictOrder(before, n) && j < n && eligible(j) && j !in chosen
    requires forall i: nat :: i in chosen <==> i < n && eligible(i) && |Ahead(n, eligible, before, i)| < limit
    ensures |chosen| >= limit
  {
    var left := set i: nat | i < n && eligible(i) && i !in chosen;
    assert j in left;
    var first := FirstOf(left, before, n);
    forall k | k in Ahead(n, eligible, before, first) ensures k in chosen {
      NotBoth(before, n, k, first);
      assert k in chosen || k in left;
    }
    Smaller(Ahead(n, eligible, before, first), chosen);
  }

  lemma {:induction false} NotBoth(before: Order, n: nat, i: nat, j: nat)
    requires StrictOrder(before, n) && i < n && j < n && before(i, j)
    ensures !before(j, i) && i != j
  {
  }

  /** What has fewer than `limit` eligible positions ahead is the first `limit` of them, or all. */
  lemma {:induction false} FewAreFirst(n: nat, eligible: nat -> bool, before: Order, chosen: set<nat>, limit: nat)
    requires StrictOrder(before, n)
    requires forall i: nat :: i in chosen <==> i < n && eligible(i) && |Ahead(n, eligible, before, i)| < limit
    ensures FirstFew(n, eligible, before, chosen, limit)
  {
    hide StrictOrder, Ahead;
    AtMostLimit(n, eligible, before, chosen, limit);
    forall j: nat | j < n && eligible(j) && j !in chosen ensures |chosen| == limit {
      AtLeastLimit(n, eligible, before, chosen, limit, j);
    }
    forall i: nat, j: nat | i in chosen && j < n && eligible(j) && j !in chosen ensures before(i, j) {
      ChosenComeFirst(n, eligible, before, limit, i, j);
    }
  }

  // ------------------------------------------------------------------ filtering

  /** What is left of `s` from position `k` on, in the same order, when the positions in `gone` go. */
  ghost function Without<T>(s: seq<T>, gone: set<nat>, k: nat := 0): seq<T>
    requires k <= |s|
    decreases |s| - k
  {
    if k == |s| then [] else (if k in gone then [] else [s[k]]) + Without(s, gone, k + 1)
  }

  lemma {:induction false} WithoutNone<T>(s: seq<T>, k: nat)
    requires k <= |s|
    ensures Without(s, {}, k) == s[k..]
    decreases |s| - k
  {
    if k < |s| { WithoutNone(s, k + 1); }
  }
}
