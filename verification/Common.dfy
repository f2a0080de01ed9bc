/** Optional values and the duplicate-free sorting that the canonical forms rely on. */
module Common {

  datatype Option<+T> = None | Some(value: T)

  function Min(a: int, b: int): int { if a <= b then a else b }

  function Max(a: int, b: int): int { if a <= b then b else a }

  function SetOf<T>(s: seq<T>): set<T> { set x | x in s }

  ghost predicate Distinct<T>(s: seq<T>) { forall i, j | 0 <= i < j < |s| :: s[i] != s[j] }

  lemma {:induction false} DistinctSize<T>(s: seq<T>)
    requires Distinct(s)
    ensures |SetOf(s)| == |s|
  {
    if s != [] {
      var rest, last := s[..|s| - 1], s[|s| - 1];
      DistinctSize(rest);
      assert s == rest + [last] && last !in rest;
      assert SetOf(s) == SetOf(rest) + {last};
    }
  }

  ghost predicate Increasing(s: seq<int>) {
    forall i, j | 0 <= i < j < |s| :: s[i] < s[j]
  }

  /** Inserts `x` into an increasing sequence, unless it is there already. */
  function Insert(x: int, s: seq<int>): (r: seq<int>)
    requires Increasing(s)
    ensures Increasing(r)
    ensures forall y :: y in r <==> y == x || y in s
  {
    if s == [] || x < s[0] then [x] + s
    else if x == s[0] then s
    else
      var rest := Insert(x, s[1..]);
      assert forall y :: y in s <==> y == s[0] || y in s[1..];
      assert forall k | 0 <= k < |rest| :: s[0] < rest[k] by {
        forall k | 0 <= k < |rest| ensures s[0] < rest[k] {
          assert rest[k] in rest;
          if rest[k] != x {
            var j :| 0 <= j < |s[1..]| && s[1..][j] == rest[k];
            assert s[1..][j] == s[j + 1];
          }
        }
      }
      [s[0]] + rest
  }

  /** `[...new Set(s)].sort()`: the distinct elements, in increasing order. */
  function SortUnique(s: seq<int>): (r: seq<int>)
    ensures Increasing(r)
    ensures forall y :: y in r <==> y in s
  {
    if s == [] then [] else Insert(s[0], SortUnique(s[1..]))
  }

  /** An increasing sequence is determined by its elements. */
  lemma {:induction false} IncreasingUnique(s: seq<int>, t: seq<int>)
    requires Increasing(s) && Increasing(t)
    requires forall y :: y in s <==> y in t
    ensures s == t
  {
    assert t != [] ==> t[0] in t;
    if s != [] {
      assert s[0] in s && s[0] in t;
      assert t[0] in s;
      assert s[0] == t[0];
      forall y ensures y in s[1..] <==> y in t[1..] {
        if y in s[1..] { assert y in t && y != t[0]; }
        if y in t[1..] { assert y in s && y != s[0]; }
      }
      IncreasingUnique(s[1..], t[1..]);
      assert s == [s[0]] + s[1..];
      assert t == [t[0]] + t[1..];
    }
  }

  /** Order and repetition of the input do not matter. */
  lemma {:induction false} SortUniqueOfSameElements(s: seq<int>, t: seq<int>)
    requires forall y :: y in s <==> y in t
    ensures SortUnique(s) == SortUnique(t)
  {
    IncreasingUnique(SortUnique(s), SortUnique(t));
  }

  /** A canonical list is its own canonical form. */
  lemma {:induction false} SortUniqueIdempotent(s: seq<int>)
    ensures SortUnique(SortUnique(s)) == SortUnique(s)
  {
    IncreasingUnique(SortUnique(SortUnique(s)), SortUnique(s));
  }

  // ------------------------------------------------------------------ sorting records by a key

  function PlaceBy<T>(x: T, s: seq<T>, key: T -> int): seq<T> {
    if s == [] || key(x) <= key(s[0]) then [x] + s else [s[0]] + PlaceBy(x, s[1..], key)
  }

  /** Stable sort by a numeric key. */
  function SortBy<T>(s: seq<T>, key: T -> int): seq<T> {
    if s == [] then [] else PlaceBy(s[0], SortBy(s[1..], key), key)
  }

  ghost predicate OrderedBy<T>(s: seq<T>, key: T -> int) {
    forall i, j | 0 <= i < j < |s| :: key(s[i]) <= key(s[j])
  }

  lemma {:induction false} PlaceByAdds<T(!new)>(x: T, s: seq<T>, key: T -> int)
    ensures multiset(PlaceBy(x, s, key)) == multiset(s) + multiset{x}
  {
    if s != [] && key(x) > key(s[0]) {
      PlaceByAdds(x, s[1..], key);
      assert s == [s[0]] + s[1..];
    }
  }

  lemma {:induction false} PlaceByOrders<T(!new)>(x: T, s: seq<T>, key: T -> int)
    requires OrderedBy(s, key)
    ensures OrderedBy(PlaceBy(x, s, key), key)
    ensures key(PlaceBy(x, s, key)[0]) == if s == [] then key(x) else Min(key(x), key(s[0]))
  {
    if s != [] && key(x) > key(s[0]) {
      PlaceByOrders(x, s[1..], key);
      var rest := PlaceBy(x, s[1..], key);
      assert forall k | 0 <= k < |rest| :: key(rest[0]) <= key(rest[k]);
    }
  }

  lemma {:induction false} SortByProperties<T(!new)>(s: seq<T>, key: T -> int)
    ensures multiset(SortBy(s, key)) == multiset(s)
    ensures OrderedBy(SortBy(s, key), key)
  {
    if s != [] {
      SortByProperties(s[1..], key);
      PlaceByAdds(s[0], SortBy(s[1..], key), key);
      PlaceByOrders(s[0], SortBy(s[1..], key), key);
      assert s == [s[0]] + s[1..];
    }
  }

  lemma {:induction false} SameMultisetSameMembers<T(!new)>(s: seq<T>, t: seq<T>)
    requires multiset(s) == multiset(t)
    ensures |s| == |t| && forall x :: x in s <==> x in t
  {
    assert |s| == |multiset(s)| && |t| == |multiset(t)|;
    assert forall x :: x in s <==> x in multiset(s);
    assert forall x :: x in t <==> x in multiset(t);
  }

  /** Records that share a key are the same record. */
  ghost predicate KeyDetermines<T(!new)>(s: seq<T>, key: T -> int) {
    forall x, y | x in s && y in s && key(x) == key(y) :: x == y
  }

  /** The first records of two orderings of the same records agree. */
  lemma {:induction false} SameFirst<T(!new)>(s: seq<T>, t: seq<T>, key: T -> int)
    requires OrderedBy(s, key) && OrderedBy(t, key) && KeyDetermines(s, key)
    requires s != [] && |s| == |t| && forall x :: x in s <==> x in t
    ensures s[0] == t[0]
  {
    assert s[0] in s && t[0] in t && t[0] in s && s[0] in t;
    var i :| 0 <= i < |s| && s[i] == t[0];
    var j :| 0 <= j < |t| && t[j] == s[0];
    assert key(s[0]) <= key(s[i]) && key(t[0]) <= key(t[j]);
  }

  lemma {:induction false} RestStaysOrdered<T(!new)>(s: seq<T>, key: T -> int)
    requires s != [] && OrderedBy(s, key)
    ensures OrderedBy(s[1..], key)
  {
  }

  lemma {:induction false} RestStaysDetermined<T(!new)>(s: seq<T>, key: T -> int)
    requires s != [] && KeyDetermines(s, key)
    ensures KeyDetermines(s[1..], key)
  {
  }

  lemma {:induction false} OrderedUnique<T(!new)>(s: seq<T>, t: seq<T>, key: T -> int)
    requires OrderedBy(s, key) && OrderedBy(t, key) && KeyDetermines(s, key)
    requires multiset(s) == multiset(t)
    ensures s == t
  {
    hide OrderedBy, KeyDetermines;
    SameMultisetSameMembers(s, t);
    if s != [] {
      SameFirst(s, t, key);
      RestKeepsMultiset(s, t);
      RestStaysOrdered(s, key);
      RestStaysOrdered(t, key);
      RestStaysDetermined(s, key);
      OrderedUnique(s[1..], t[1..], key);
      assert s == [s[0]] + s[1..] && t == [t[0]] + t[1..];
    }
  }

  lemma {:induction false} RestKeepsMultiset<T(!new)>(s: seq<T>, t: seq<T>)
    requires s != [] && t != [] && s[0] == t[0] && multiset(s) == multiset(t)
    ensures multiset(s[1..]) == multiset(t[1..])
  {
    assert s == [s[0]] + s[1..] && t == [t[0]] + t[1..];
    assert multiset(s) - multiset{s[0]} == multiset(s[1..]);
    assert multiset(t) - multiset{t[0]} == multiset(t[1..]);
  }

  /** The order in which records arrive does not matter. */
  lemma {:induction false} SortByOfSameElements<T(!new)>(s: seq<T>, t: seq<T>, key: T -> int)
    requires multiset(s) == multiset(t) && KeyDetermines(s, key)
    ensures SortBy(s, key) == SortBy(t, key)
  {
    hide SortBy;
    SortByProperties(s, key);
    SortByProperties(t, key);
    var r := SortBy(s, key);
    SameMultisetSameMembers(r, s);
    forall x, y | x in r && y in r && key(x) == key(y) ensures x == y { assert x in s && y in s; }
    OrderedUnique(r, SortBy(t, key), key);
  }
}
