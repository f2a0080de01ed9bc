/**
 Deterministic JSON for protocol hashes (packages/contracts/src/index.ts): JSON text as in
 section 2 of RFC 8259, over UTF-16 code units, with object keys sorted.
 */
module CanonicalJson {
  import opened Utf16
  import JsonNumbers

  datatype Json =
    | Null
    | Bool(value: bool)
    | Num(number: JsonNumbers.Number)
    | Str(text: Text)
    | Arr(items: seq<Json>)
    | Obj(fields: seq<Field>)

  /** Own properties of a plain object in insertion order. */
  datatype Field = Field(key: Text, value: Json)

  /** An object cannot hold two properties of one name. */
  ghost predicate Plain(v: Json) {
    match v
    case Arr(items) => forall i | 0 <= i < |items| :: Plain(items[i])
    case Obj(fields) =>
      && (forall i, j | 0 <= i < j < |fields| :: fields[i].key != fields[j].key)
      && forall i | 0 <= i < |fields| :: Plain(fields[i].value)
    case _ => true
  }

  ghost predicate HasKey(fields: seq<Field>, key: Text) {
    exists i :: 0 <= i < |fields| && fields[i].key == key
  }

  /** Equal up to the order of object properties and the sign of zero. */
  ghost predicate Same(v: Json, w: Json) {
    match (v, w)
    case (Arr(xs), Arr(ys)) => |xs| == |ys| && forall i | 0 <= i < |xs| :: Same(xs[i], ys[i])
    case (Obj(fs), Obj(gs)) =>
      && (forall k :: HasKey(fs, k) <==> HasKey(gs, k))
      && forall i, j | 0 <= i < |fs| && 0 <= j < |gs| && fs[i].key == gs[j].key :: Same(fs[i].value, gs[j].value)
    case (Num(x), Num(y)) => JsonNumbers.Equal(x, y)
    case (_, _) => v == w
  }

  // ------------------------------------------------------------------ printing

  /** The texts joined by commas. */
  function Join(parts: seq<Text>): Text {
    if parts == [] then []
    else if |parts| == 1 then parts[0]
    else parts[0] + [COMMA] + Join(parts[1..])
  }

  /** A property with its value printed. */
  datatype Member = Member(key: Text, value: Text) {
    function Print(): Text { Quote(key) + [COLON] + value }
  }

  /** UTF-16 code unit order. */
  predicate Before(a: Text, b: Text) {
    b != [] && (a == [] || a[0] < b[0] || (a[0] == b[0] && Before(a[1..], b[1..])))
  }

  function Place(m: Member, ms: seq<Member>): seq<Member> {
    if ms == [] || Before(m.key, ms[0].key) then [m] + ms else [ms[0]] + Place(m, ms[1..])
  }

  function Sorted(ms: seq<Member>): seq<Member> {
    if ms == [] then [] else Place(ms[0], Sorted(ms[1..]))
  }

  function PrintAll(ms: seq<Member>): seq<Text> {
    seq(|ms|, i requires 0 <= i < |ms| => ms[i].Print())
  }

  function Print(v: Json): Text
    decreases v, 1
  {
    match v
    case Null => NULL
    case Bool(b) => if b then TRUE else FALSE
    case Num(n) => JsonNumbers.Print(n)
    case Str(s) => Quote(s)
    case Arr(items) => [OPEN_ARRAY] + Join(PrintItems(v)) + [CLOSE_ARRAY]
    case Obj(fields) => [OPEN_OBJECT] + Join(PrintAll(Sorted(Members(v)))) + [CLOSE_OBJECT]
  }

  function PrintItems(v: Json): (r: seq<Text>)
    requires v.Arr?
    decreases v, 0
  {
    seq(|v.items|, i requires 0 <= i < |v.items| => Print(v.items[i]))
  }

  function Members(v: Json): seq<Member>
    requires v.Obj?
    decreases v, 0
  {
    seq(|v.fields|, i requires 0 <= i < |v.fields| => Member(v.fields[i].key, Print(v.fields[i].value)))
  }

  // ------------------------------------------------------------------ numbers inside a text

  /** What may follow a value inside a text. */
  predicate Ends(x: Text) { x == [] || x[0] in {COMMA, CLOSE_ARRAY, CLOSE_OBJECT} }

  lemma {:induction false} EndsNumbers(x: Text)
    requires Ends(x)
    ensures x == [] || !JsonNumbers.Numeric(x[0])
  {
  }

  // ------------------------------------------------------------------ whole values decode uniquely

  lemma {:induction false} PrintStarts(v: Json)
    ensures Print(v) != [] && !Ends(Print(v))
    ensures v.Arr? <==> Print(v)[0] == OPEN_ARRAY
    ensures v.Obj? <==> Print(v)[0] == OPEN_OBJECT
    ensures v.Str? <==> Print(v)[0] == QUOTE
    ensures v.Num? <==> Print(v)[0] == MINUS || JsonNumbers.IsDigit(Print(v)[0])
    ensures v.Null? <==> Print(v)[0] == NULL[0]
    ensures v.Bool? <==> Print(v)[0] == TRUE[0] || Print(v)[0] == FALSE[0]
  {
    hide JsonNumbers.Print;
    if v.Num? { JsonNumbers.PrintShape(v.number); }
  }

  /** What follows the first of several joined texts, up to and past the closing bracket. */
  function Rest(parts: seq<Text>, close: Unit, x: Text): Text
    requires parts != []
  {
    if |parts| == 1 then [close] + x else [COMMA] + (Join(parts[1..]) + [close] + x)
  }

  lemma {:induction false} JoinSplits(parts: seq<Text>, close: Unit, x: Text)
    requires parts != []
    ensures Join(parts) + [close] + x == parts[0] + Rest(parts, close, x)
  {
  }

  /** Equal first texts leave equal rests, so that the lists go on alike or stop alike. */
  lemma {:induction false} RestSplits(ps: seq<Text>, x: Text, qs: seq<Text>, y: Text, close: Unit)
    requires ps != [] && qs != [] && close != COMMA && Rest(ps, close, x) == Rest(qs, close, y)
    ensures |ps| == 1 <==> |qs| == 1
    ensures |ps| == 1 ==> x == y
    ensures |ps| > 1 ==> Join(ps[1..]) + [close] + x == Join(qs[1..]) + [close] + y
  {
    var r, r' := Rest(ps, close, x), Rest(qs, close, y);
    assert r[0] == r'[0] && r[1..] == r'[1..];
    assert r[1..] == if |ps| == 1 then x else Join(ps[1..]) + [close] + x;
    assert r'[1..] == if |qs| == 1 then y else Join(qs[1..]) + [close] + y;
  }

  /** A list of texts none of which begins like a closing bracket is empty exactly when the bracket comes first. */
  lemma {:induction false} EmptyJoin(parts: seq<Text>, close: Unit, x: Text)
    requires close == CLOSE_ARRAY || close == CLOSE_OBJECT
    requires parts != [] ==> parts[0] != [] && !Ends(parts[0])
    ensures (Join(parts) + [close] + x)[0] == close <==> parts == []
    ensures parts == [] ==> (Join(parts) + [close] + x)[1..] == x
  {
    if parts != [] {
      JoinSplits(parts, close, x);
    }
  }

  lemma {:induction false} ScalarPrefix(v: Json, x: Text, w: Json, y: Text)
    requires Print(v) + x == Print(w) + y && Ends(x) && Ends(y)
    requires !v.Arr? && !v.Obj?
    ensures Same(v, w) && Print(v) == Print(w) && x == y
  {
    hide Join, PrintItems, Members, Sorted, JsonNumbers.Print, Quote, Ends;
    EndsNumbers(x);
    EndsNumbers(y);
    var a, b := Print(v) + x, Print(w) + y;
    PrintStarts(v);
    PrintStarts(w);
    assert a[0] == b[0];
    match v
    case Null => assert a[4..] == x && b[4..] == y;
    case Bool(_) => assert a[|Print(v)|..] == x && b[|Print(w)|..] == y;
    case Num(n) => JsonNumbers.PrintPrefix(n, x, w.number, y);
    case Str(s) => QuotePrefix(s, x, w.text, y);
  }

  /** The text of an array or object after its opening bracket. */
  function Inside(v: Json, x: Text): Text
    requires v.Arr? || v.Obj?
  {
    if v.Arr? then Join(PrintItems(v)) + [CLOSE_ARRAY] + x
    else Join(PrintAll(Sorted(Members(v)))) + [CLOSE_OBJECT] + x
  }

  lemma {:induction false} Opened(v: Json, x: Text)
    requires v.Arr? || v.Obj?
    ensures (Print(v) + x)[1..] == Inside(v, x)
  {
    hide Join, PrintItems, Members, Sorted, PrintAll;
    assert Print(v) + x == [Print(v)[0]] + Inside(v, x);
  }

  /** Unambiguous decoding: a printed value, and what follows it, can be told from their concatenation. */
  lemma {:induction false} PrintPrefix(v: Json, x: Text, w: Json, y: Text)
    requires Print(v) + x == Print(w) + y && Ends(x) && Ends(y)
    ensures Print(v) == Print(w) && x == y
    decreases v, 1, 0
  {
    hide Join, PrintItems, Members, Sorted, PrintAll;
    PrintStarts(v);
    PrintStarts(w);
    assert (Print(v) + x)[0] == Print(v)[0] && (Print(w) + y)[0] == Print(w)[0];
    if v.Arr? {
      Opened(v, x);
      Opened(w, y);
      assert PrintItems(v)[0..] == PrintItems(v) && PrintItems(w)[0..] == PrintItems(w);
      ItemsPrefix(v, x, w, y, 0);
    } else if v.Obj? {
      Opened(v, x);
      Opened(w, y);
      SortedMembers(Members(v));
      SortedMembers(Members(w));
      MembersPrefix(v, Sorted(Members(v)), x, w, Sorted(Members(w)), y);
    } else {
      ScalarPrefix(v, x, w, y);
    }
  }

  lemma {:induction false} ItemsPrefix(v: Json, x: Text, w: Json, y: Text, i: nat)
    requires v.Arr? && w.Arr? && i <= |v.items| && i <= |w.items|
    requires Join(PrintItems(v)[i..]) + [CLOSE_ARRAY] + x == Join(PrintItems(w)[i..]) + [CLOSE_ARRAY] + y
    ensures PrintItems(v)[i..] == PrintItems(w)[i..] && x == y
    decreases v, 0, |v.items| - i
  {
    var ps, qs := PrintItems(v)[i..], PrintItems(w)[i..];
    if ps != [] { PrintStarts(v.items[i]); }
    if qs != [] { PrintStarts(w.items[i]); }
    EmptyJoin(ps, CLOSE_ARRAY, x);
    EmptyJoin(qs, CLOSE_ARRAY, y);
    if ps != [] {
      JoinSplits(ps, CLOSE_ARRAY, x);
      JoinSplits(qs, CLOSE_ARRAY, y);
      PrintPrefix(v.items[i], Rest(ps, CLOSE_ARRAY, x), w.items[i], Rest(qs, CLOSE_ARRAY, y));
      RestSplits(ps, x, qs, y, CLOSE_ARRAY);
      assert ps == [ps[0]] + ps[1..] && qs == [qs[0]] + qs[1..];
      if |ps| > 1 {
        assert ps[1..] == PrintItems(v)[i + 1..] && qs[1..] == PrintItems(w)[i + 1..];
        ItemsPrefix(v, x, w, y, i + 1);
      }
    }
  }

  /** The members are properties of the object `v`. */
  ghost predicate MembersOf(v: Json, ms: seq<Member>)
    requires v.Obj?
  {
    forall m | m in ms :: m in Members(v)
  }

  lemma {:induction false} MemberSplits(m: Member, x: Text, n: Member, y: Text)
    requires m.Print() + x == n.Print() + y
    ensures m.key == n.key && m.value + x == n.value + y
  {
    hide Quote;
    var r, r' := [COLON] + (m.value + x), [COLON] + (n.value + y);
    assert m.Print() + x == Quote(m.key) + r && n.Print() + y == Quote(n.key) + r';
    QuotePrefix(m.key, r, n.key, r');
    assert r[1..] == m.value + x && r'[1..] == n.value + y;
  }

  lemma {:induction false} MembersPrefix(v: Json, ms: seq<Member>, x: Text, w: Json, ns: seq<Member>, y: Text)
    requires v.Obj? && w.Obj? && MembersOf(v, ms) && MembersOf(w, ns)
    requires Join(PrintAll(ms)) + [CLOSE_OBJECT] + x == Join(PrintAll(ns)) + [CLOSE_OBJECT] + y
    ensures ms == ns && x == y
    decreases v, 0, |ms|
  {
    hide Join, Print, Quote, Sorted;
    var ps, qs := PrintAll(ms), PrintAll(ns);
    PrintedMembersStart(ps, ms);
    PrintedMembersStart(qs, ns);
    EmptyJoin(ps, CLOSE_OBJECT, x);
    EmptyJoin(qs, CLOSE_OBJECT, y);
    if ms != [] {
      JoinSplits(ps, CLOSE_OBJECT, x);
      JoinSplits(qs, CLOSE_OBJECT, y);
      var x', y' := Rest(ps, CLOSE_OBJECT, x), Rest(qs, CLOSE_OBJECT, y);
      MemberSplits(ms[0], x', ns[0], y');
      assert ms[0] in ms && ns[0] in ns;
      var i :| 0 <= i < |v.fields| && Members(v)[i] == ms[0];
      var j :| 0 <= j < |w.fields| && Members(w)[j] == ns[0];
      PrintPrefix(v.fields[i].value, x', w.fields[j].value, y');
      RestSplits(ps, x, qs, y, CLOSE_OBJECT);
      assert ms == [ms[0]] + ms[1..] && ns == [ns[0]] + ns[1..];
      if |ms| > 1 {
        assert ps[1..] == PrintAll(ms[1..]) && qs[1..] == PrintAll(ns[1..]);
        MembersPrefix(v, ms[1..], x, w, ns[1..], y);
      }
    }
  }

  lemma {:induction false} PrintedMembersStart(ps: seq<Text>, ms: seq<Member>)
    requires ps == PrintAll(ms)
    ensures ps != [] ==> ps[0] != [] && !Ends(ps[0])
  {
  }

  // ------------------------------------------------------------------ sorting by key

  ghost predicate Ascending(ms: seq<Member>) {
    forall i, j | 0 <= i < j < |ms| :: Before(ms[i].key, ms[j].key)
  }

  ghost predicate DistinctKeys(ms: seq<Member>) {
    forall i, j | 0 <= i < j < |ms| :: ms[i].key != ms[j].key
  }

  lemma {:induction false} BeforeIsStrict(a: Text, b: Text)
    ensures !(Before(a, b) && Before(b, a))
    ensures a == b || Before(a, b) || Before(b, a)
    ensures !Before(a, a)
  {
    if a != [] {
      BeforeIsStrict(a[1..], if b == [] then [] else b[1..]);
      assert b != [] ==> a == [a[0]] + a[1..] && b == [b[0]] + b[1..];
    }
  }

  lemma {:induction false} BeforeIsTransitive(a: Text, b: Text, c: Text)
    requires Before(a, b) && Before(b, c)
    ensures Before(a, c)
  {
    if a != [] && a[0] == b[0] == c[0] {
      BeforeIsTransitive(a[1..], b[1..], c[1..]);
    }
  }

  lemma {:induction false} SortedMembers(ms: seq<Member>)
    ensures forall m :: m in Sorted(ms) <==> m in ms
    ensures DistinctKeys(ms) ==> Ascending(Sorted(ms))
  {
    if ms != [] {
      SortedMembers(ms[1..]);
      PlaceAdds(ms[0], Sorted(ms[1..]));
      if DistinctKeys(ms) {
        forall k | 0 <= k < |Sorted(ms[1..])| ensures Sorted(ms[1..])[k].key != ms[0].key {
          assert Sorted(ms[1..])[k] in ms[1..];
        }
        PlaceKeepsOrder(ms[0], Sorted(ms[1..]));
      }
    }
  }

  lemma {:induction false} PlaceAdds(m: Member, ms: seq<Member>)
    ensures forall n :: n in Place(m, ms) <==> n == m || n in ms
  {
    if ms != [] && !Before(m.key, ms[0].key) {
      PlaceAdds(m, ms[1..]);
      assert ms == [ms[0]] + ms[1..];
    }
  }

  lemma {:induction false} PlaceKeepsOrder(m: Member, ms: seq<Member>)
    requires Ascending(ms) && forall k | 0 <= k < |ms| :: ms[k].key != m.key
    ensures Ascending(Place(m, ms))
  {
    if ms != [] {
      if Before(m.key, ms[0].key) {
        forall k | 0 < k < |ms| ensures Before(m.key, ms[k].key) {
          BeforeIsTransitive(m.key, ms[0].key, ms[k].key);
        }
      } else {
        BeforeIsStrict(m.key, ms[0].key);
        PlaceKeepsOrder(m, ms[1..]);
        PlaceAdds(m, ms[1..]);
        var rest := Place(m, ms[1..]);
        forall k | 0 <= k < |rest| ensures Before(ms[0].key, rest[k].key) {
          assert rest[k] in rest;
        }
      }
    }
  }

  lemma {:induction false} AscendingUnique(ms: seq<Member>, ns: seq<Member>)
    requires Ascending(ms) && Ascending(ns)
    requires forall m :: m in ms <==> m in ns
    ensures ms == ns
  {
    assert ns != [] ==> ns[0] in ns;
    if ms != [] {
      assert ms[0] in ms && ms[0] in ns && ns[0] in ms;
      BeforeIsStrict(ms[0].key, ns[0].key);
      BeforeIsStrict(ms[0].key, ms[0].key);
      assert ms[0] == ns[0];
      forall m ensures m in ms[1..] <==> m in ns[1..] {
        BeforeIsStrict(ms[0].key, ms[0].key);
        if m in ms[1..] { assert m in ns && m != ns[0]; }
        if m in ns[1..] { assert m in ms && m != ms[0]; }
      }
      AscendingUnique(ms[1..], ns[1..]);
      assert ms == [ms[0]] + ms[1..] && ns == [ns[0]] + ns[1..];
    }
  }

  // ------------------------------------------------------------------ the main result

  lemma {:induction false} EqualPartsEqualText(v: Json, w: Json)
    requires (v.Arr? && w.Arr? && PrintItems(v) == PrintItems(w)) ||
             (v.Obj? && w.Obj? && Sorted(Members(v)) == Sorted(Members(w)))
    ensures Print(v) == Print(w)
  {
  }

  lemma {:induction false} PrintsNumber(v: Json)
    requires v.Num?
    ensures Print(v) == JsonNumbers.Print(v.number)
  {
  }

  lemma {:induction false} SameMeansEqualText(v: Json, w: Json)
    requires Plain(v) && Plain(w) && Same(v, w)
    ensures Print(v) == Print(w)
  {
    hide Print, Sorted, JsonNumbers.Print;
    if v.Num? {
      JsonNumbers.PrintInjective(v.number, w.number);
      PrintsNumber(v);
      PrintsNumber(w);
    } else if v.Arr? {
      forall i | 0 <= i < |v.items| ensures Print(v.items[i]) == Print(w.items[i]) {
        SameMeansEqualText(v.items[i], w.items[i]);
      }
      EqualPartsEqualText(v, w);
    } else if v.Obj? {
      var fs, gs := v.fields, w.fields;
      var ms, ns := Members(v), Members(w);
      forall i, j | 0 <= i < |fs| && 0 <= j < |gs| && fs[i].key == gs[j].key ensures ms[i] == ns[j] {
        SameMeansEqualText(fs[i].value, gs[j].value);
      }
      forall m ensures m in ms <==> m in ns {
        if i :| 0 <= i < |fs| && ms[i] == m { assert HasKey(fs, m.key) && HasKey(gs, m.key); }
        if j :| 0 <= j < |gs| && ns[j] == m { assert HasKey(gs, m.key) && HasKey(fs, m.key); }
      }
      SortedMembers(ms);
      SortedMembers(ns);
      AscendingUnique(Sorted(ms), Sorted(ns));
      EqualPartsEqualText(v, w);
    }
  }

  lemma {:induction false} EqualTextMeansSame(v: Json, w: Json)
    requires Plain(v) && Plain(w) && Print(v) == Print(w)
    ensures Same(v, w)
  {
    hide Print;
    PrintStarts(v);
    PrintStarts(w);
    if v.Arr? {
      EqualLists(v, w);
      forall i | 0 <= i < |v.items| ensures Same(v.items[i], w.items[i]) {
        assert Print(v.items[i]) == PrintItems(v)[i] == PrintItems(w)[i];
        EqualTextMeansSame(v.items[i], w.items[i]);
      }
    } else if v.Obj? {
      EqualMembers(v, w);
      var fs, gs, ms, ns := v.fields, w.fields, Members(v), Members(w);
      forall k ensures HasKey(fs, k) <==> HasKey(gs, k) {
        if i :| 0 <= i < |fs| && fs[i].key == k { assert ms[i] in ns; }
        if j :| 0 <= j < |gs| && gs[j].key == k { assert ns[j] in ms; }
      }
      forall i, j | 0 <= i < |fs| && 0 <= j < |gs| && fs[i].key == gs[j].key ensures Same(fs[i].value, gs[j].value) {
        assert ms[i] in ns;
        assert ms[i] == ns[j];
        EqualTextMeansSame(fs[i].value, gs[j].value);
      }
    } else {
      assert Print(v) + [] == Print(w) + [];
      ScalarPrefix(v, [], w, []);
    }
  }

  lemma {:induction false} EqualLists(v: Json, w: Json)
    requires v.Arr? && w.Arr? && Print(v) == Print(w)
    ensures PrintItems(v) == PrintItems(w)
  {
    hide Join, PrintItems, Print;
    Opened(v, []);
    Opened(w, []);
    assert PrintItems(v)[0..] == PrintItems(v) && PrintItems(w)[0..] == PrintItems(w);
    ItemsPrefix(v, [], w, [], 0);
  }

  lemma {:induction false} EqualMembers(v: Json, w: Json)
    requires Plain(v) && Plain(w) && v.Obj? && w.Obj? && Print(v) == Print(w)
    ensures forall m :: m in Members(v) <==> m in Members(w)
  {
    hide Sorted, Members, PrintAll, Join, Ascending, Plain, Print;
    var ms, ns := Sorted(Members(v)), Sorted(Members(w));
    SortedMembers(Members(v));
    SortedMembers(Members(w));
    Opened(v, []);
    Opened(w, []);
    MembersPrefix(v, ms, [], w, ns, []);
  }

  /**
   Two values have the same canonical text exactly when they are equal up to the order of object keys
   and the sign of zero.
   */
  lemma {:induction false} CanonicalTextIsInjective(v: Json, w: Json)
    requires Plain(v) && Plain(w)
    ensures Print(v) == Print(w) <==> Same(v, w)
  {
    if Print(v) == Print(w) { EqualTextMeansSame(v, w); }
    if Same(v, w) { SameMeansEqualText(v, w); }
  }
}
