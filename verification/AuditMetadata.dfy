/**
 Validation of audit events (apps/api/src/audit/integrity.ts): text that PostgreSQL can store, and
 metadata that is a small tree of plain JSON values. Metadata is an object graph in a heap, in which
 references may be shared or form cycles.
 */
module AuditMetadata {
  import opened Common
  import opened Utf16

  // ------------------------------------------------------------------ text

  /** A character PostgreSQL text can hold: a Unicode scalar value other than U+0000. */
  type Character = c: nat | 0 < c <= 0x10_FFFF && !(0xD800 <= c <= 0xDFFF) witness 1

  function EncodeCharacter(c: Character): Text {
    if c < 0x1_0000 then [c as Unit]
    else [(0xD800 + (c - 0x1_0000) / 0x400) as Unit, (0xDC00 + (c - 0x1_0000) % 0x400) as Unit]
  }

  /** The character a pair of surrogates stands for. */
  function Joined(high: Unit, low: Unit): (c: Character)
    requires High(high) && Low(low)
    ensures EncodeCharacter(c) == [high, low]
  {
    var h, l := high as int, low as int;
    0x1_0000 + (h - 0xD800) * 0x400 + (l - 0xDC00)
  }

  /** The UTF-16 form of the characters. */
  function Encode(cs: seq<Character>): Text {
    if cs == [] then [] else EncodeCharacter(cs[0]) + Encode(cs[1..])
  }

  /** The text is well-formed UTF-16 without U+0000. */
  ghost predicate Compatible(s: Text) { exists cs :: Encode(cs) == s }

  /** The characters a text starts with, as long as it is well formed. */
  function Decode(s: Text): (r: Option<seq<Character>>)
    ensures r.Some? ==> Encode(r.value) == s
    decreases |s|
  {
    if s == [] then Some([])
    else if High(s[0]) then
      if |s| >= 2 && Low(s[1]) then
        var rest := Decode(s[2..]);
        if rest.None? then None
        else
          assert s == [s[0], s[1]] + s[2..];
          Some([Joined(s[0], s[1])] + rest.value)
      else None
    else if s[0] == 0 || Low(s[0]) then None
    else
      var rest := Decode(s[1..]);
      if rest.None? then None
      else
        assert s == [s[0]] + s[1..];
        Some([s[0] as Character] + rest.value)
  }

  lemma {:induction false} DecodeFirst(c: Character, rest: Text)
    ensures Decode(EncodeCharacter(c) + rest) == if Decode(rest).None? then None else Some([c] + Decode(rest).value)
  {
    if c < 0x1_0000 {
      DecodeUnit(c as Unit, rest);
    } else {
      DecodePair((0xD800 + (c - 0x1_0000) / 0x400) as Unit, (0xDC00 + (c - 0x1_0000) % 0x400) as Unit, rest);
    }
  }

  lemma {:induction false} DecodeUnit(u: Unit, rest: Text)
    requires u != 0 && !High(u) && !Low(u)
    ensures Decode([u] + rest) == if Decode(rest).None? then None else Some([u as Character] + Decode(rest).value)
  {
    hide Encode, EncodeCharacter;
    var s := [u] + rest;
    assert s[0] == u && s[1..] == rest;
  }

  lemma {:induction false} DecodePair(high: Unit, low: Unit, rest: Text)
    requires High(high) && Low(low)
    ensures Decode([high, low] + rest) == if Decode(rest).None? then None
                                          else Some([Joined(high, low)] + Decode(rest).value)
  {
    hide Encode, EncodeCharacter, Joined;
    var s := [high, low] + rest;
    assert s[0] == high && s[1] == low && s[2..] == rest;
  }

  lemma {:induction false} DecodeOfEncode(cs: seq<Character>)
    ensures Decode(Encode(cs)) == Some(cs)
  {
    hide Decode, EncodeCharacter;
    if cs == [] {
      DecodeOfNothing();
    } else {
      DecodeOfEncode(cs[1..]);
      DecodeFirst(cs[0], Encode(cs[1..]));
      assert cs == [cs[0]] + cs[1..];
    }
  }

  lemma {:induction false} DecodeOfNothing()
    ensures Decode([]) == Some([])
  {
  }

  lemma {:induction false} CompatibleIsDecodable(s: Text)
    ensures Compatible(s) <==> Decode(s).Some?
  {
    if Compatible(s) {
      var cs :| Encode(cs) == s;
      DecodeOfEncode(cs);
    }
  }

  /** Accepts exactly the well-formed texts without U+0000, stepping over a pair of units at once. */
  method IsPostgresTextCompatible(s: Text) returns (ok: bool)
    ensures ok <==> Compatible(s)
  {
    CompatibleIsDecodable(s);
    var index := 0;
    while index < |s|
      invariant index <= |s|
      invariant Decode(s).Some? <==> Decode(s[index..]).Some?
    {
      var rest := s[index..];
      assert rest[1..] == s[index + 1..];
      var codeUnit := s[index];
      if codeUnit == 0 {
        return false;
      }
      if High(codeUnit) {
        if !(index + 1 < |s| && Low(s[index + 1])) {
          return false;
        }
        assert rest[2..] == s[index + 2..];
        index := index + 1;
      } else if Low(codeUnit) {
        return false;
      }
      index := index + 1;
    }
    assert s[index..] == [];
    return true;
  }

  /** Bytes of the JSON form of the text. */
  function QuotedLength(s: Text): nat { Utf8Length(Quote(s)) }

  // ------------------------------------------------------------------ values

  const MAX_BYTES := 16 * 1024
  const MAX_DEPTH := 8
  const MAX_KEYS := 64
  const MAX_ITEMS := 256
  const MAX_STRING := 2 * 1024
  const NUMBER_BYTES := 330

  type Ref = nat

  /** What PostgreSQL prints for a finite number. */
  type NumberText = t: Text | |t| <= NUMBER_BYTES && Ascii(t) witness []

  /** Foreign is everything that is not a JSON value: undefined, functions, symbols, big integers. */
  datatype Value = Null | Boolean(b: bool) | String(s: Text) | Finite(text: NumberText) | NotFinite | Foreign
    | Object(ref: Ref)

  datatype Property = Property(key: Text, plain: bool, value: Value)

  datatype Node = Array(items: seq<Value>) | Record(plain: bool, symbols: bool, entries: seq<Property>)

  type Heap = seq<Node>

  /** A child of a node: a property with its key, or an item. */
  datatype Part = Part(key: Option<Text>, plain: bool, value: Value)

  function PartsOf(n: Node): (r: seq<Part>)
    ensures |r| == if n.Array? then |n.items| else |n.entries|
  {
    match n
    case Array(items) => seq(|items|, i requires 0 <= i < |items| => Part(None, true, items[i]))
    case Record(_, _, entries) =>
      seq(|entries|, i requires 0 <= i < |entries| => Part(Some(entries[i].key), entries[i].plain, entries[i].value))
  }

  predicate Refers(heap: Heap, v: Value) { v.Object? ==> v.ref < |heap| }

  predicate Closed(heap: Heap) {
    forall r, k | 0 <= r < |heap| && 0 <= k < |PartsOf(heap[r])| :: Refers(heap, PartsOf(heap[r])[k].value)
  }

  // ------------------------------------------------------------------ what acceptance means

  ghost predicate ScalarSound(v: Value) {
    match v
    case String(s) => Compatible(s) && Utf8Length(s) <= MAX_STRING
    case NotFinite => false
    case Foreign => false
    case _ => true
  }

  predicate NodeSound(n: Node) {
    match n
    case Array(items) => |items| <= MAX_ITEMS
    case Record(plain, symbols, entries) => plain && !symbols && |entries| <= MAX_KEYS
  }

  ghost predicate KeySound(p: Part) { p.plain && (p.key.Some? ==> Compatible(p.key.value)) }

  /** Every value down from here is within the depth and passes its own checks. */
  ghost predicate Sound(heap: Heap, v: Value, depth: nat)
    decreases MAX_DEPTH + 1 - depth, 1, 0
  {
    && depth <= MAX_DEPTH
    && ScalarSound(v)
    && (v.Object? ==> v.ref < |heap| && NodeSound(heap[v.ref]) && PartsSound(heap, PartsOf(heap[v.ref]), depth + 1))
  }

  ghost predicate PartsSound(heap: Heap, parts: seq<Part>, depth: nat)
    decreases MAX_DEPTH + 1 - depth, 2, |parts|
  {
    parts == [] || (PartsSound(heap, parts[..|parts| - 1], depth)
                    && KeySound(parts[|parts| - 1]) && Sound(heap, parts[|parts| - 1].value, depth))
  }

  /** The references met from here on, parents before children, in order. */
  function Refs(heap: Heap, v: Value, depth: nat): seq<Ref>
    decreases MAX_DEPTH + 1 - depth, 1, 0
  {
    if !v.Object? || depth > MAX_DEPTH || v.ref >= |heap| then []
    else [v.ref] + PartsRefs(heap, PartsOf(heap[v.ref]), depth + 1)
  }

  function PartsRefs(heap: Heap, parts: seq<Part>, depth: nat): seq<Ref>
    decreases MAX_DEPTH + 1 - depth, 2, |parts|
  {
    if parts == [] then []
    else PartsRefs(heap, parts[..|parts| - 1], depth) + Refs(heap, parts[|parts| - 1].value, depth)
  }

  function KeyBytes(p: Part): nat { if p.key.Some? then QuotedLength(p.key.value) + 2 else 0 }

  /** The bytes reckoned for a value: two around a node, two between its children, and what is inside. */
  function Estimate(heap: Heap, v: Value, depth: nat): nat
    decreases MAX_DEPTH + 1 - depth, 1, 0
  {
    match v
    case Null => 4
    case Boolean(b) => if b then 4 else 5
    case String(s) => QuotedLength(s)
    case Finite(_) => NUMBER_BYTES
    case NotFinite => 0
    case Foreign => 0
    case Object(ref) =>
      if depth > MAX_DEPTH || ref >= |heap| then 0 else 2 + PartsEstimate(heap, PartsOf(heap[ref]), depth + 1)
  }

  function PartsEstimate(heap: Heap, parts: seq<Part>, depth: nat): nat
    decreases MAX_DEPTH + 1 - depth, 2, |parts|
  {
    if parts == [] then 0 else
    var n := |parts| - 1;
    PartsEstimate(heap, parts[..n], depth) + (if n > 0 then 2 else 0) + KeyBytes(parts[n])
      + Estimate(heap, parts[n].value, depth)
  }

  /** The references are pairwise distinct and new. */
  ghost predicate Unseen(s: seq<Ref>, seen: set<Ref>) { Distinct(s) && forall r | r in s :: r !in seen }

  ghost predicate Accepted(heap: Heap, v: Value, depth: nat, seen: set<Ref>) {
    && Sound(heap, v, depth) && Unseen(Refs(heap, v, depth), seen)
    && (v.Object? ==> Estimate(heap, v, depth) <= MAX_BYTES)
  }

  ghost predicate PartsAccepted(heap: Heap, parts: seq<Part>, depth: nat, seen: set<Ref>) {
    && PartsSound(heap, parts, depth) && Unseen(PartsRefs(heap, parts, depth), seen)
    && 2 + PartsEstimate(heap, parts, depth) <= MAX_BYTES
  }

  lemma {:induction false} UnseenOfSum(s: seq<Ref>, t: seq<Ref>, seen: set<Ref>)
    ensures Unseen(s + t, seen) <==> Unseen(s, seen) && Unseen(t, seen + SetOf(s))
  {
    var u := s + t;
    assert forall i | 0 <= i < |s| :: u[i] == s[i];
    assert forall i | 0 <= i < |t| :: u[|s| + i] == t[i];
    if Unseen(u, seen) {
      forall r | r in t ensures r !in seen + SetOf(s) {
        var j :| 0 <= j < |t| && t[j] == r;
        assert u[|s| + j] in u;
        forall i | 0 <= i < |s| ensures s[i] != r { assert u[i] != u[|s| + j]; }
      }
      forall r | r in s ensures r !in seen { assert r in u; }
      forall i, j | 0 <= i < j < |s| ensures s[i] != s[j] { assert u[i] != u[j]; }
      forall i, j | 0 <= i < j < |t| ensures t[i] != t[j] { assert u[|s| + i] != u[|s| + j]; }
    }
    if Unseen(s, seen) && Unseen(t, seen + SetOf(s)) {
      forall i, j | 0 <= i < j < |u| ensures u[i] != u[j] {
        if i < |s| <= j {
          assert s[i] in s && t[j - |s|] in t;
        } else if i >= |s| {
          assert t[i - |s|] != t[j - |s|];
        }
      }
    }
  }

  /** One more child: the children so far, and the new one given what they have used. */
  lemma {:induction false} OneMorePart(heap: Heap, parts: seq<Part>, p: Part, depth: nat, seen: set<Ref>)
    ensures PartsAccepted(heap, parts + [p], depth, seen) <==>
            && PartsAccepted(heap, parts, depth, seen) && KeySound(p)
            && Accepted(heap, p.value, depth, seen + SetOf(PartsRefs(heap, parts, depth)))
            && 2 + PartsEstimate(heap, parts + [p], depth) <= MAX_BYTES
    ensures PartsRefs(heap, parts + [p], depth) == PartsRefs(heap, parts, depth) + Refs(heap, p.value, depth)
    ensures PartsEstimate(heap, parts + [p], depth)
            == PartsEstimate(heap, parts, depth) + (if |parts| > 0 then 2 else 0) + KeyBytes(p)
               + Estimate(heap, p.value, depth)
  {
    hide Unseen, KeySound, Refs, Estimate, Sound;
    assert (parts + [p])[..|parts|] == parts;
    UnseenOfSum(PartsRefs(heap, parts, depth), Refs(heap, p.value, depth), seen);
  }

  lemma {:induction false} PartsAcceptedPrefix(heap: Heap, parts: seq<Part>, k: nat, depth: nat, seen: set<Ref>)
    requires k <= |parts| && PartsAccepted(heap, parts, depth, seen)
    ensures PartsAccepted(heap, parts[..k], depth, seen)
    decreases |parts|
  {
    hide PartsAccepted;
    if k == |parts| {
      assert parts[..k] == parts;
    } else {
      var n := |parts| - 1;
      assert parts == parts[..n] + [parts[n]];
      OneMorePart(heap, parts[..n], parts[n], depth, seen);
      PartsAcceptedPrefix(heap, parts[..n], k, depth, seen);
      assert parts[..n][..k] == parts[..k];
    }
  }

  lemma {:induction false} PrefixDecides(heap: Heap, parts: seq<Part>, k: nat, depth: nat, seen: set<Ref>)
    requires k <= |parts|
    ensures PartsAccepted(heap, parts, depth, seen) ==> PartsAccepted(heap, parts[..k], depth, seen)
  {
    hide PartsAccepted;
    if PartsAccepted(heap, parts, depth, seen) { PartsAcceptedPrefix(heap, parts, k, depth, seen); }
  }

  lemma {:induction false} NoPartsAccepted(heap: Heap, depth: nat, seen: set<Ref>)
    ensures PartsAccepted(heap, [], depth, seen) && PartsEstimate(heap, [], depth) == 0
            && PartsRefs(heap, [], depth) == []
  {
  }

  lemma {:induction false} SetOfSum(s: seq<Ref>, t: seq<Ref>)
    ensures SetOf(s + t) == SetOf(s) + SetOf(t)
  {
  }

  lemma {:induction false} ObjectAccepted(heap: Heap, v: Value, depth: nat, seen: set<Ref>)
    requires v.Object? && v.ref < |heap|
    ensures Accepted(heap, v, depth, seen) <==>
            && depth <= MAX_DEPTH && v.ref !in seen && NodeSound(heap[v.ref])
            && PartsAccepted(heap, PartsOf(heap[v.ref]), depth + 1, seen + {v.ref})
    ensures depth <= MAX_DEPTH ==> Refs(heap, v, depth) == [v.ref] + PartsRefs(heap, PartsOf(heap[v.ref]), depth + 1)
    ensures depth <= MAX_DEPTH ==> Estimate(heap, v, depth) == 2 + PartsEstimate(heap, PartsOf(heap[v.ref]), depth + 1)
  {
    hide PartsSound, PartsRefs, PartsEstimate, PartsOf;
    if depth <= MAX_DEPTH {
      UnseenOfSum([v.ref], PartsRefs(heap, PartsOf(heap[v.ref]), depth + 1), seen);
      assert SetOf([v.ref]) == {v.ref};
      assert [v.ref][0] in [v.ref];
    }
  }

  // ------------------------------------------------------------------ the validator

  class Validator {
    var seen: set<Ref>

    constructor ()
      ensures seen == {}
    {
      seen := {};
    }

    /** The estimate of the value, unless some check fails; None stands for the exception. */
    method ValidateJsonValue(heap: Heap, value: Value, depth: nat) returns (r: Option<nat>)
      requires Closed(heap) && Refers(heap, value)
      modifies this
      ensures r.Some? <==> Accepted(heap, value, depth, old(seen))
      ensures r.Some? ==> r.value == Estimate(heap, value, depth) && seen == old(seen) + SetOf(Refs(heap, value, depth))
      decreases if depth > MAX_DEPTH then 0 else MAX_DEPTH + 1 - depth, 2
    {
      if depth > MAX_DEPTH {
        return None;
      }
      match value
      case Null => return Some(4);
      case Boolean(b) => return Some(if b then 4 else 5);
      case String(s) =>
        var compatible := IsPostgresTextCompatible(s);
        if !compatible || Utf8Length(s) > MAX_STRING {
          return None;
        }
        return Some(QuotedLength(s));
      case Finite(_) => return Some(NUMBER_BYTES);
      case NotFinite => return None;
      case Foreign => return None;
      case Object(ref) =>
        ObjectAccepted(heap, value, depth, seen);
        if ref in seen {
          return None;
        }
        seen := seen + {ref};
        if !NodeSound(heap[ref]) {
          return None;
        }
        r := ValidateParts(heap, PartsOf(heap[ref]), depth + 1);
    }

    /** The loop over the items of an array or the properties of an object. */
    method ValidateParts(heap: Heap, parts: seq<Part>, depth: nat) returns (r: Option<nat>)
      requires Closed(heap) && forall k | 0 <= k < |parts| :: Refers(heap, parts[k].value)
      requires depth <= MAX_DEPTH + 1
      modifies this
      ensures r.Some? <==> PartsAccepted(heap, parts, depth, old(seen))
      ensures r.Some? ==>
                && r.value == 2 + PartsEstimate(heap, parts, depth)
                && seen == old(seen) + SetOf(PartsRefs(heap, parts, depth))
      decreases if depth > MAX_DEPTH then 0 else MAX_DEPTH + 1 - depth, 3
    {
      hide PartsEstimate, PartsRefs, Accepted, PartsAccepted, Estimate, Refs, Compatible;
      ghost var before := seen;
      var bytes := 2;
      NoPartsAccepted(heap, depth, seen);
      for index := 0 to |parts|
        invariant bytes == 2 + PartsEstimate(heap, parts[..index], depth)
        invariant PartsAccepted(heap, parts[..index], depth, before)
        invariant seen == before + SetOf(PartsRefs(heap, parts[..index], depth))
      {
        var part := parts[index];
        assert parts[..index + 1] == parts[..index] + [part];
        OneMorePart(heap, parts[..index], part, depth, before);
        PrefixDecides(heap, parts, index + 1, depth, before);
        SetOfSum(PartsRefs(heap, parts[..index], depth), Refs(heap, part.value, depth));
        if !part.plain {
          return None;
        }
        if index > 0 {
          bytes := bytes + 2;
        }
        if part.key.Some? {
          var compatible := IsPostgresTextCompatible(part.key.value);
          if !compatible {
            return None;
          }
          bytes := bytes + QuotedLength(part.key.value) + 2;
        }
        var inner := ValidateJsonValue(heap, part.value, depth);
        if inner.None? {
          return None;
        }
        bytes := bytes + inner.value;
        if bytes > MAX_BYTES {
          return None;
        }
      }
      assert parts[..|parts|] == parts;
      return Some(bytes);
    }
  }

  // ------------------------------------------------------------------ events

  datatype AuditEvent = AuditEvent(
    actorType: Text, action: Text, entityType: Text, entityId: Option<Text>, ipAddress: Option<Text>,
    requestId: Option<Text>, metadata: Value)

  ghost predicate Bounded(s: Text, maximum: nat) { 1 <= |s| <= maximum && Compatible(s) }

  ghost predicate MetadataSound(heap: Heap, v: Value) {
    && v.Object? && v.ref < |heap| && heap[v.ref].Record?
    && Sound(heap, v, 0) && Distinct(Refs(heap, v, 0)) && Estimate(heap, v, 0) <= MAX_BYTES
  }

  ghost predicate EventSound(heap: Heap, e: AuditEvent) {
    && Bounded(e.actorType, 32) && Bounded(e.action, 96) && Bounded(e.entityType, 64)
    && (e.entityId.Some? ==> Bounded(e.entityId.value, 256))
    && (e.ipAddress.Some? ==> Bounded(e.ipAddress.value, 64))
    && (e.requestId.Some? ==> Bounded(e.requestId.value, 128))
    && MetadataSound(heap, e.metadata)
  }

  method IsBoundedString(s: Option<Text>, maximum: nat, optional: bool) returns (ok: bool)
    ensures ok <==> if s.None? then optional else Bounded(s.value, maximum)
  {
    if s.None? {
      return optional;
    }
    if |s.value| == 0 || |s.value| > maximum {
      return false;
    }
    ok := IsPostgresTextCompatible(s.value);
  }

  /** An event is recorded exactly when its texts are bounded and storable and its metadata is sound. */
  method IsAuditEventSound(heap: Heap, e: AuditEvent) returns (ok: bool)
    requires Closed(heap) && Refers(heap, e.metadata)
    ensures ok <==> EventSound(heap, e)
  {
    hide Compatible, Sound, Refs, Estimate, PartsOf;
    var fields := [(Some(e.actorType), 32, false), (Some(e.action), 96, false), (Some(e.entityType), 64, false),
                   (e.entityId, 256, true), (e.ipAddress, 64, true), (e.requestId, 128, true)];
    for k := 0 to |fields|
      invariant forall j | 0 <= j < k ::
                  var (s, maximum, optional) := fields[j]; if s.None? then optional else Bounded(s.value, maximum)
    {
      var (s, maximum, optional) := fields[k];
      var bounded := IsBoundedString(s, maximum, optional);
      if !bounded {
        assert !EventSound(heap, e);
        return false;
      }
    }
    assert Bounded(e.actorType, 32) by { assert fields[0] == (Some(e.actorType), 32, false); }
    assert Bounded(e.action, 96) by { assert fields[1] == (Some(e.action), 96, false); }
    assert Bounded(e.entityType, 64) by { assert fields[2] == (Some(e.entityType), 64, false); }
    assert e.entityId.Some? ==> Bounded(e.entityId.value, 256) by { assert fields[3] == (e.entityId, 256, true); }
    assert e.ipAddress.Some? ==> Bounded(e.ipAddress.value, 64) by { assert fields[4] == (e.ipAddress, 64, true); }
    assert e.requestId.Some? ==> Bounded(e.requestId.value, 128) by { assert fields[5] == (e.requestId, 128, true); }
    if !e.metadata.Object? || heap[e.metadata.ref].Array? {
      return false;
    }
    var validator := new Validator();
    var estimate := validator.ValidateJsonValue(heap, e.metadata, 0);
    return estimate.Some? && estimate.value <= MAX_BYTES;
  }
}
