/** Accepted audit metadata is a tree of bounded depth whose rendering is no longer than its estimate. */
module AuditTrees {
  import opened Common
  import opened Utf16
  import opened AuditMetadata

  /** The value a path of child positions leads to. */
  function Follow(heap: Heap, v: Value, path: seq<nat>): Option<Value>
    decreases |path|
  {
    if path == [] then Some(v)
    else if v.Object? && v.ref < |heap| && path[0] < |PartsOf(heap[v.ref])|
    then Follow(heap, PartsOf(heap[v.ref])[path[0]].value, path[1..])
    else None
  }

  predicate LeadsTo(heap: Heap, v: Value, path: seq<nat>, r: Ref) { Follow(heap, v, path) == Some(Object(r)) }

  /** No object can be reached in two ways. */
  ghost predicate IsTree(heap: Heap, v: Value) {
    forall p, q, r :: LeadsTo(heap, v, p, r) && LeadsTo(heap, v, q, r) ==> p == q
  }

  lemma {:induction false} SoundPart(heap: Heap, parts: seq<Part>, k: nat, depth: nat)
    requires PartsSound(heap, parts, depth) && k < |parts|
    ensures Sound(heap, parts[k].value, depth)
    decreases |parts|
  {
    hide Sound;
    if k < |parts| - 1 { SoundPart(heap, parts[..|parts| - 1], k, depth); }
  }

  lemma {:induction false} RefsOfPart(heap: Heap, parts: seq<Part>, k: nat, depth: nat, r: Ref)
    requires k < |parts| && r in Refs(heap, parts[k].value, depth)
    ensures r in PartsRefs(heap, parts, depth)
    decreases |parts|
  {
    hide Refs;
    if k < |parts| - 1 { RefsOfPart(heap, parts[..|parts| - 1], k, depth, r); }
  }

  /** The references of two different children have nothing in common, and those of each are distinct. */
  lemma {:induction false} PartsAreDisjoint(heap: Heap, parts: seq<Part>, i: nat, j: nat, depth: nat, r: Ref)
    requires i < j < |parts| && Distinct(PartsRefs(heap, parts, depth))
    requires r in Refs(heap, parts[i].value, depth)
    ensures r !in Refs(heap, parts[j].value, depth)
    decreases |parts|
  {
    hide Refs, Distinct;
    var n := |parts| - 1;
    DistinctSum(PartsRefs(heap, parts[..n], depth), Refs(heap, parts[n].value, depth));
    if j < n {
      PartsAreDisjoint(heap, parts[..n], i, j, depth, r);
    } else {
      assert parts[..n][i] == parts[i];
      RefsOfPart(heap, parts[..n], i, depth, r);
    }
  }

  lemma {:induction false} DistinctSum(s: seq<Ref>, t: seq<Ref>)
    ensures Distinct(s + t) <==> Distinct(s) && Distinct(t) && forall r | r in s :: r !in t
  {
    UnseenOfSum(s, t, {});
    assert forall r :: r in SetOf(s) <==> r in s;
  }

  lemma {:induction false} PartIsDistinct(heap: Heap, parts: seq<Part>, k: nat, depth: nat)
    requires k < |parts| && Distinct(PartsRefs(heap, parts, depth))
    ensures Distinct(Refs(heap, parts[k].value, depth))
    decreases |parts|
  {
    hide Refs, Distinct;
    var n := |parts| - 1;
    DistinctSum(PartsRefs(heap, parts[..n], depth), Refs(heap, parts[n].value, depth));
    if k < n { PartIsDistinct(heap, parts[..n], k, depth); }
  }

  lemma {:induction false} RefsOfObject(heap: Heap, v: Value, depth: nat)
    requires v.Object? && v.ref < |heap| && depth <= MAX_DEPTH
    ensures Refs(heap, v, depth) == [v.ref] + PartsRefs(heap, PartsOf(heap[v.ref]), depth + 1)
    ensures Sound(heap, v, depth) ==> PartsSound(heap, PartsOf(heap[v.ref]), depth + 1)
    ensures Distinct(Refs(heap, v, depth)) <==>
              Distinct(PartsRefs(heap, PartsOf(heap[v.ref]), depth + 1))
              && v.ref !in PartsRefs(heap, PartsOf(heap[v.ref]), depth + 1)
  {
    hide PartsRefs, PartsOf, Distinct;
    DistinctSum([v.ref], PartsRefs(heap, PartsOf(heap[v.ref]), depth + 1));
    assert Distinct([v.ref]) by { OneIsDistinct(v.ref); }
  }

  lemma {:induction false} OneIsDistinct(r: Ref)
    ensures Distinct([r])
  {
  }

  /** Where a path leads is listed, and no path is longer than the depth allows. */
  lemma {:induction false} PathsAreListed(heap: Heap, v: Value, path: seq<nat>, r: Ref, depth: nat)
    requires Sound(heap, v, depth) && LeadsTo(heap, v, path, r)
    ensures r in Refs(heap, v, depth) && depth + |path| <= MAX_DEPTH
    decreases |path|
  {
    hide PartsRefs, PartsSound, PartsOf;
    RefsOfObject(heap, v, depth);
    if path != [] {
      var parts := PartsOf(heap[v.ref]);
      SoundPart(heap, parts, path[0], depth + 1);
      PathsAreListed(heap, parts[path[0]].value, path[1..], r, depth + 1);
      RefsOfPart(heap, parts, path[0], depth + 1, r);
    }
  }

  lemma {:induction false} PathsAreUnique(heap: Heap, v: Value, p: seq<nat>, q: seq<nat>, r: Ref, depth: nat)
    requires Sound(heap, v, depth) && Distinct(Refs(heap, v, depth)) && LeadsTo(heap, v, p, r) && LeadsTo(heap, v, q, r)
    ensures p == q
    decreases |p|
  {
    hide PartsRefs, PartsSound, PartsOf, Distinct, Refs, Sound;
    if p == [] && q == [] { return; }
    assert v.Object? && v.ref < |heap| && depth <= MAX_DEPTH by { SoundObject(heap, v, p, q, r, depth); }
    RefsOfObject(heap, v, depth);
    var parts := PartsOf(heap[v.ref]);
    if p != [] { ChildIsListed(heap, v, p, r, depth); }
    if q != [] { ChildIsListed(heap, v, q, r, depth); }
    if p != [] && q != [] {
      if p[0] == q[0] {
        SoundPart(heap, parts, p[0], depth + 1);
        PartIsDistinct(heap, parts, p[0], depth + 1);
        PathsAreUnique(heap, parts[p[0]].value, p[1..], q[1..], r, depth + 1);
        assert p == [p[0]] + p[1..] && q == [q[0]] + q[1..];
      } else if p[0] < q[0] {
        PartsAreDisjoint(heap, parts, p[0], q[0], depth + 1, r);
      } else {
        PartsAreDisjoint(heap, parts, q[0], p[0], depth + 1, r);
      }
    }
  }

  lemma {:induction false} SoundObject(heap: Heap, v: Value, p: seq<nat>, q: seq<nat>, r: Ref, depth: nat)
    requires Sound(heap, v, depth) && LeadsTo(heap, v, p, r) && LeadsTo(heap, v, q, r) && (p != [] || q != [])
    ensures v.Object? && v.ref < |heap| && depth <= MAX_DEPTH
  {
  }

  /** What a nonempty path leads to is listed under the child the path starts with. */
  lemma {:induction false} ChildIsListed(heap: Heap, v: Value, path: seq<nat>, r: Ref, depth: nat)
    requires Sound(heap, v, depth) && LeadsTo(heap, v, path, r) && path != []
    ensures v.Object? && v.ref < |heap| && path[0] < |PartsOf(heap[v.ref])|
    ensures var parts := PartsOf(heap[v.ref]);
            && LeadsTo(heap, parts[path[0]].value, path[1..], r)
            && r in Refs(heap, parts[path[0]].value, depth + 1) && r in PartsRefs(heap, parts, depth + 1)
  {
    hide PartsRefs, PartsSound, PartsOf, Refs;
    var parts := PartsOf(heap[v.ref]);
    SoundPart(heap, parts, path[0], depth + 1);
    PathsAreListed(heap, parts[path[0]].value, path[1..], r, depth + 1);
    RefsOfPart(heap, parts, path[0], depth + 1, r);
  }

  /** Every listed reference is where some path leads. */
  lemma {:induction false} ListedHavePaths(heap: Heap, v: Value, r: Ref, depth: nat) returns (path: seq<nat>)
    requires r in Refs(heap, v, depth)
    ensures LeadsTo(heap, v, path, r)
    decreases MAX_DEPTH + 1 - depth, 1, 0
  {
    hide PartsRefs, PartsOf;
    if r == v.ref {
      path := [];
    } else {
      var parts := PartsOf(heap[v.ref]);
      var k, rest := ListedInParts(heap, parts, r, depth + 1);
      path := [k] + rest;
      assert path[1..] == rest;
    }
  }

  lemma {:induction false} ListedInParts(heap: Heap, parts: seq<Part>, r: Ref, depth: nat)
    returns (k: nat, path: seq<nat>)
    requires r in PartsRefs(heap, parts, depth)
    ensures k < |parts| && LeadsTo(heap, parts[k].value, path, r)
    decreases MAX_DEPTH + 1 - depth, 2, |parts|
  {
    hide Refs, LeadsTo;
    var n := |parts| - 1;
    if r in Refs(heap, parts[n].value, depth) {
      k := n;
      path := ListedHavePaths(heap, parts[n].value, r, depth);
    } else {
      k, path := ListedInParts(heap, parts[..n], r, depth);
    }
  }

  /** A repetition in the list gives two ways to one object. */
  lemma {:induction false} RepetitionMeansTwoPaths(heap: Heap, v: Value, depth: nat)
    returns (p: seq<nat>, q: seq<nat>, r: Ref)
    requires !Distinct(Refs(heap, v, depth))
    ensures p != q && LeadsTo(heap, v, p, r) && LeadsTo(heap, v, q, r)
    decreases MAX_DEPTH + 1 - depth, 1, 0
  {
    hide PartsRefs, PartsOf, Distinct;
    assert v.Object? && v.ref < |heap| && depth <= MAX_DEPTH by { NothingIsDistinct(heap, v, depth); }
    RefsOfObject(heap, v, depth);
    var parts := PartsOf(heap[v.ref]);
    if v.ref in PartsRefs(heap, parts, depth + 1) {
      var k, path := ListedInParts(heap, parts, v.ref, depth + 1);
      p, q, r := [], [k] + path, v.ref;
      assert q[1..] == path;
    } else {
      var i, a, j, b, x := RepetitionInParts(heap, parts, depth + 1);
      p, q, r := [i] + a, [j] + b, x;
      assert p[1..] == a && q[1..] == b;
    }
  }

  lemma {:induction false} NothingIsDistinct(heap: Heap, v: Value, depth: nat)
    requires !Distinct(Refs(heap, v, depth))
    ensures v.Object? && v.ref < |heap| && depth <= MAX_DEPTH
  {
  }

  lemma {:induction false} RepetitionInParts(heap: Heap, parts: seq<Part>, depth: nat)
    returns (i: nat, a: seq<nat>, j: nat, b: seq<nat>, r: Ref)
    requires !Distinct(PartsRefs(heap, parts, depth))
    ensures i < |parts| && j < |parts| && (i != j || a != b)
    ensures LeadsTo(heap, parts[i].value, a, r) && LeadsTo(heap, parts[j].value, b, r)
    decreases MAX_DEPTH + 1 - depth, 2, |parts|
  {
    hide Refs, LeadsTo, Distinct;
    assert parts != [] by { EmptyIsDistinct(heap, depth); }
    var n := |parts| - 1;
    var front, back := PartsRefs(heap, parts[..n], depth), Refs(heap, parts[n].value, depth);
    DistinctSum(front, back);
    if !Distinct(front) {
      i, a, j, b, r := RepetitionInParts(heap, parts[..n], depth);
    } else if !Distinct(back) {
      a, b, r := RepetitionMeansTwoPaths(heap, parts[n].value, depth);
      i, j := n, n;
    } else {
      r :| r in front && r in back;
      i, a := ListedInParts(heap, parts[..n], r, depth);
      j := n;
      b := ListedHavePaths(heap, parts[n].value, r, depth);
    }
  }

  lemma {:induction false} EmptyIsDistinct(heap: Heap, depth: nat)
    ensures Distinct(PartsRefs(heap, [], depth))
  {
  }

  // ------------------------------------------------------------------ what is checked of each value

  /** The unit is not U+0000, and a surrogate has its other half beside it, the high one first. */
  ghost predicate UnitFits(s: Text, k: nat)
    requires k < |s|
  {
    && s[k] != 0
    && (0xD800 <= s[k] <= 0xDBFF ==> k + 1 < |s| && 0xDC00 <= s[k + 1] <= 0xDFFF)
    && (0xDC00 <= s[k] <= 0xDFFF ==> k > 0 && 0xD800 <= s[k - 1] <= 0xDBFF)
  }

  ghost predicate Storable(s: Text) { forall k: nat | k < |s| :: UnitFits(s, k) }

  lemma {:induction false} StorableRest(s: Text, n: nat)
    requires 0 < n <= |s| && (n < |s| ==> !(0xD800 <= s[n - 1] <= 0xDBFF)) && Storable(s)
    ensures Storable(s[n..])
  {
    var rest := s[n..];
    forall k: nat | k < |rest| ensures UnitFits(rest, k) {
      assert UnitFits(s, n + k) && rest[k] == s[n + k];
      if k + 1 < |rest| { assert rest[k + 1] == s[n + k + 1]; }
      if k > 0 { assert rest[k - 1] == s[n + k - 1]; }
    }
  }

  lemma {:induction false} StorableFront(s: Text, n: nat)
    requires 0 < n <= |s| && Storable(s[..n]) && Storable(s[n..])
    ensures Storable(s)
  {
    var front, rest := s[..n], s[n..];
    forall k: nat | k < |s| ensures UnitFits(s, k) {
      if k < n {
        assert UnitFits(front, k) && front[k] == s[k];
        if k + 1 < n { assert front[k + 1] == s[k + 1]; }
        if k > 0 { assert front[k - 1] == s[k - 1]; }
      } else {
        assert UnitFits(rest, k - n) && rest[k - n] == s[k];
        if k + 1 < |s| { assert rest[k + 1 - n] == s[k + 1]; }
        if k > n { assert rest[k - 1 - n] == s[k - 1]; }
      }
    }
  }

  /** Text is well formed exactly when each unit is in order with its neighbours. */
  lemma {:induction false} CompatibleExactly(s: Text)
    ensures Compatible(s) <==> Storable(s)
  {
    CompatibleIsDecodable(s);
    DecodableExactly(s);
  }

  lemma {:induction false} DecodableExactly(s: Text)
    ensures Decode(s).Some? <==> Storable(s)
    decreases |s|
  {
    hide Encode, EncodeCharacter, Joined;
    if s != [] {
      var n := if High(s[0]) then 2 else 1;
      assert Storable(s) ==> UnitFits(s, 0);
      if n <= |s| && s[0] != 0 && !Low(s[0]) && (n == 2 ==> Low(s[1])) {
        DecodableExactly(s[n..]);
        assert Storable(s[..n]);
        if Storable(s) { StorableRest(s, n); }
        if Storable(s[n..]) { StorableFront(s, n); }
      }
    }
  }

  /** The checks of one value, apart from those of its children. */
  ghost predicate Passes(heap: Heap, v: Value) {
    match v
    case Null => true
    case Boolean(_) => true
    case Finite(_) => true
    case String(s) => Storable(s) && Utf8Length(s) <= 2048
    case NotFinite => false
    case Foreign => false
    case Object(ref) =>
      && ref < |heap|
      && match heap[ref]
         case Array(items) => |items| <= 256
         case Record(plain, symbols, entries) =>
           && plain && !symbols && |entries| <= 64
           && forall e | e in entries :: e.plain && Storable(e.key)
  }

  /** Every path leads through at most `limit` levels, to a value that passes its checks. */
  ghost predicate AllPass(heap: Heap, v: Value, limit: int) {
    forall path: seq<nat>, x: Value | Follow(heap, v, path) == Some(x) :: |path| <= limit && Passes(heap, x)
  }

  lemma {:induction false} AllPassSplits(heap: Heap, v: Value, limit: int)
    ensures AllPass(heap, v, limit) <==>
              && 0 <= limit && Passes(heap, v)
              && (v.Object? ==>
                    v.ref < |heap|
                    && forall k: nat | k < |PartsOf(heap[v.ref])| ::
                         AllPass(heap, PartsOf(heap[v.ref])[k].value, limit - 1))
  {
    hide Passes, PartsOf;
    if AllPass(heap, v, limit) {
      assert Follow(heap, v, []) == Some(v);
      assert Passes(heap, v) && 0 <= limit;
      if v.Object? {
        assert v.ref < |heap| by { PassesIsStored(heap, v); }
        forall k: nat | k < |PartsOf(heap[v.ref])| ensures AllPass(heap, PartsOf(heap[v.ref])[k].value, limit - 1) {
          forall path: seq<nat>, x: Value | Follow(heap, PartsOf(heap[v.ref])[k].value, path) == Some(x)
            ensures |path| <= limit - 1 && Passes(heap, x)
          {
            assert ([k] + path)[1..] == path;
            assert Follow(heap, v, [k] + path) == Some(x);
          }
        }
      }
    } else {
      var path: seq<nat>, x: Value :| Follow(heap, v, path) == Some(x) && !(|path| <= limit && Passes(heap, x));
      if path != [] && 0 <= limit {
        var child := PartsOf(heap[v.ref])[path[0]].value;
        assert Follow(heap, child, path[1..]) == Some(x);
        assert !AllPass(heap, child, limit - 1);
      }
    }
  }

  lemma {:induction false} PassesIsStored(heap: Heap, v: Value)
    ensures Passes(heap, v) && v.Object? ==> v.ref < |heap|
  {
  }

  /** The checks of a value and its keys, as the validation makes them, are those listed. */
  lemma {:induction false} PassesExactly(heap: Heap, v: Value)
    ensures Passes(heap, v) <==>
              && ScalarSound(v)
              && (v.Object? ==>
                    && v.ref < |heap| && NodeSound(heap[v.ref])
                    && forall k: nat | k < |PartsOf(heap[v.ref])| :: KeySound(PartsOf(heap[v.ref])[k]))
  {
    hide Compatible, Storable;
    forall s ensures Compatible(s) <==> Storable(s) { CompatibleExactly(s); }
    if v.Object? && v.ref < |heap| && heap[v.ref].Record? {
      var entries, parts := heap[v.ref].entries, PartsOf(heap[v.ref]);
      forall k: nat | k < |parts| ensures KeySound(parts[k]) <==> entries[k].plain && Storable(entries[k].key) { }
      if forall e | e in entries :: e.plain && Storable(e.key) {
        forall k: nat | k < |parts| ensures KeySound(parts[k]) { assert entries[k] in entries; }
      }
    }
  }

  lemma {:induction false} PartsSoundIsAll(heap: Heap, parts: seq<Part>, depth: nat)
    ensures PartsSound(heap, parts, depth) <==>
              forall k: nat | k < |parts| :: KeySound(parts[k]) && Sound(heap, parts[k].value, depth)
    decreases |parts|
  {
    hide KeySound, Sound;
    if parts != [] {
      var n := |parts| - 1;
      PartsSoundIsAll(heap, parts[..n], depth);
      assert forall k: nat | k < n :: parts[..n][k] == parts[k];
    }
  }

  /** A value is sound exactly when every value a path leads to passes its checks, within eight levels. */
  lemma {:induction false} SoundExactly(heap: Heap, v: Value, depth: nat)
    ensures Sound(heap, v, depth) <==> AllPass(heap, v, 8 - depth)
    decreases MAX_DEPTH + 1 - depth
  {
    hide ScalarSound, NodeSound, KeySound, Passes, AllPass, PartsOf, PartsSound;
    AllPassSplits(heap, v, 8 - depth);
    PassesExactly(heap, v);
    if v.Object? && v.ref < |heap| && depth <= MAX_DEPTH {
      var parts := PartsOf(heap[v.ref]);
      PartsSoundIsAll(heap, parts, depth + 1);
      forall k: nat | k < |parts|
        ensures Sound(heap, parts[k].value, depth + 1) <==> AllPass(heap, parts[k].value, 8 - depth - 1)
      {
        SoundExactly(heap, parts[k].value, depth + 1);
      }
    }
  }

  // ------------------------------------------------------------------ the rendering

  /** The text PostgreSQL renders: `, ` between children, `: ` after keys, numbers in whatever digits it chooses. */
  function Render(heap: Heap, v: Value, depth: nat): Text
    decreases MAX_DEPTH + 1 - depth, 1, 0
  {
    match v
    case Null => NULL
    case Boolean(b) => if b then TRUE else FALSE
    case String(s) => Quote(s)
    case Finite(text) => text
    case NotFinite => []
    case Foreign => []
    case Object(ref) =>
      if depth > MAX_DEPTH || ref >= |heap| then [] else
      var inside := RenderParts(heap, PartsOf(heap[ref]), depth + 1);
      if heap[ref].Array? then [OPEN_ARRAY] + inside + [CLOSE_ARRAY] else [OPEN_OBJECT] + inside + [CLOSE_OBJECT]
  }

  function RenderParts(heap: Heap, parts: seq<Part>, depth: nat): Text
    decreases MAX_DEPTH + 1 - depth, 2, |parts|
  {
    if parts == [] then [] else
    var n := |parts| - 1;
    RenderParts(heap, parts[..n], depth) + (if n > 0 then [COMMA, SPACE] else [])
    + RenderKey(parts[n]) + Render(heap, parts[n].value, depth)
  }

  function RenderKey(p: Part): Text { if p.key.Some? then Quote(p.key.value) + [COLON, SPACE] else [] }

  lemma {:induction false} KeyBytesAreRight(p: Part)
    ensures Utf8Length(RenderKey(p)) == KeyBytes(p) && Whole(RenderKey(p))
  {
    hide Quote;
    if p.key.Some? {
      QuoteIsWhole(p.key.value);
      Utf8OfAscii([COLON, SPACE]);
      Utf8OfSum(Quote(p.key.value), [COLON, SPACE]);
    }
  }

  lemma {:induction false} BracketsAddTwo(open: Unit, inside: Text, close: Unit)
    requires open < 0x80 && close < 0x80 && Whole(inside)
    ensures Utf8Length([open] + inside + [close]) == Utf8Length(inside) + 2 && Whole([open] + inside + [close])
  {
    Utf8OfAscii([open]);
    Utf8OfAscii([close]);
    Utf8OfSum([open], inside);
    Utf8OfSum([open] + inside, [close]);
  }

  /** What the estimate allows for numbers beyond the digits they are rendered with. */
  function Slack(heap: Heap, v: Value, depth: nat): nat
    decreases MAX_DEPTH + 1 - depth, 1, 0
  {
    match v
    case Finite(text) => 330 - |text|
    case Object(ref) =>
      if depth > MAX_DEPTH || ref >= |heap| then 0 else PartsSlack(heap, PartsOf(heap[ref]), depth + 1)
    case _ => 0
  }

  function PartsSlack(heap: Heap, parts: seq<Part>, depth: nat): nat
    decreases MAX_DEPTH + 1 - depth, 2, |parts|
  {
    if parts == [] then 0 else
    var n := |parts| - 1;
    PartsSlack(heap, parts[..n], depth) + Slack(heap, parts[n].value, depth)
  }

  /** The estimate of any value is the bytes of its rendered text, with every number at 330 bytes. */
  lemma {:induction false} EstimateCoversRendering(heap: Heap, v: Value, depth: nat)
    ensures Estimate(heap, v, depth) == Utf8Length(Render(heap, v, depth)) + Slack(heap, v, depth)
    ensures Whole(Render(heap, v, depth))
    decreases MAX_DEPTH + 1 - depth, 1, 0
  {
    hide PartsOf, Quote, Utf8Length, RenderParts, PartsEstimate, PartsSlack;
    Utf8OfAscii(NULL);
    Utf8OfAscii(TRUE);
    Utf8OfAscii(FALSE);
    Utf8OfAscii([]);
    match v
    case String(s) => QuoteIsWhole(s);
    case Finite(text) => Utf8OfAscii(text);
    case Object(ref) =>
      if depth <= MAX_DEPTH && ref < |heap| {
        var inside := RenderParts(heap, PartsOf(heap[ref]), depth + 1);
        EstimateCoversParts(heap, PartsOf(heap[ref]), depth + 1);
        BracketsAddTwo(OPEN_ARRAY, inside, CLOSE_ARRAY);
        BracketsAddTwo(OPEN_OBJECT, inside, CLOSE_OBJECT);
      }
    case _ =>
  }

  lemma {:induction false} EstimateCoversParts(heap: Heap, parts: seq<Part>, depth: nat)
    ensures PartsEstimate(heap, parts, depth)
            == Utf8Length(RenderParts(heap, parts, depth)) + PartsSlack(heap, parts, depth)
    ensures Whole(RenderParts(heap, parts, depth))
    decreases MAX_DEPTH + 1 - depth, 2, |parts|
  {
    hide Estimate, Render, RenderKey, KeyBytes, Utf8Length, Whole, Slack;
    Utf8OfAscii([]);
    if parts != [] {
      var n := |parts| - 1;
      var front := RenderParts(heap, parts[..n], depth);
      var comma := if n > 0 then [COMMA, SPACE] else [];
      EstimateCoversParts(heap, parts[..n], depth);
      EstimateCoversRendering(heap, parts[n].value, depth);
      KeyBytesAreRight(parts[n]);
      Utf8OfAscii(comma);
      Utf8OfSum(front, comma);
      Utf8OfSum(front + comma, RenderKey(parts[n]));
      Utf8OfSum(front + comma + RenderKey(parts[n]), Render(heap, parts[n].value, depth));
    }
  }

  // ------------------------------------------------------------------ acceptance

  /**
   Metadata is accepted exactly when it is an object, every value a path leads to passes its checks
   within eight levels, no object in it can be reached in two ways, and its rendered text, with every
   number at 330 bytes, takes at most 16384.
   */
  lemma {:induction false} AcceptedIsATree(heap: Heap, v: Value)
    ensures MetadataSound(heap, v) <==>
            && v.Object? && v.ref < |heap| && heap[v.ref].Record?
            && AllPass(heap, v, 8) && IsTree(heap, v)
            && Utf8Length(Render(heap, v, 0)) + Slack(heap, v, 0) <= 16_384
    ensures MetadataSound(heap, v) ==> forall p, r :: LeadsTo(heap, v, p, r) ==> |p| <= MAX_DEPTH
  {
    hide Sound, Refs, Estimate, LeadsTo, Distinct, AllPass, Render, Slack;
    SoundExactly(heap, v, 0);
    EstimateCoversRendering(heap, v, 0);
    if Sound(heap, v, 0) && Distinct(Refs(heap, v, 0)) {
      forall p, q, r | LeadsTo(heap, v, p, r) && LeadsTo(heap, v, q, r) ensures p == q {
        PathsAreUnique(heap, v, p, q, r, 0);
      }
      forall p, r | LeadsTo(heap, v, p, r) ensures |p| <= MAX_DEPTH { PathsAreListed(heap, v, p, r, 0); }
    }
    if !Distinct(Refs(heap, v, 0)) {
      var p, q, r := RepetitionMeansTwoPaths(heap, v, 0);
    }
  }

  /** The rendered text of accepted metadata fits the column bound. */
  lemma {:induction false} AcceptedMetadataFits(heap: Heap, v: Value)
    requires MetadataSound(heap, v)
    ensures Utf8Length(Render(heap, v, 0)) <= 16_384
  {
    hide Sound, Refs, Render, Estimate, Distinct, Slack;
    EstimateCoversRendering(heap, v, 0);
  }
}
