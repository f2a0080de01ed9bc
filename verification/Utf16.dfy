/** Text as UTF-16 code units, and its quoted form in JSON (section 7 of RFC 8259). */
module Utf16 {

  newtype Unit = u: int | 0 <= u < 0x1_0000

  type Text = seq<Unit>

  // ------------------------------------------------------------------ the tokens of JSON text

  const SPACE: Unit := 0x20
  const QUOTE: Unit := 0x22
  const BACKSLASH: Unit := 0x5C
  const COMMA: Unit := 0x2C
  const MINUS: Unit := 0x2D
  const ZERO: Unit := 0x30
  const COLON: Unit := 0x3A
  const OPEN_ARRAY: Unit := 0x5B
  const CLOSE_ARRAY: Unit := 0x5D
  const OPEN_OBJECT: Unit := 0x7B
  const CLOSE_OBJECT: Unit := 0x7D
  const NULL: Text := [0x6E, 0x75, 0x6C, 0x6C]
  const TRUE: Text := [0x74, 0x72, 0x75, 0x65]
  const FALSE: Text := [0x66, 0x61, 0x6C, 0x73, 0x65]

  // ------------------------------------------------------------------ quoting

  predicate High(u: Unit) { 0xD800 <= u <= 0xDBFF }

  predicate Low(u: Unit) { 0xDC00 <= u <= 0xDFFF }

  function Hex(d: int): Unit
    requires 0 <= d < 16
  {
    if d < 10 then 0x30 + d as Unit else 0x61 + (d - 10) as Unit
  }

  /** A code unit that is not half of a surrogate pair, as it appears inside quotes. */
  function Escaped(u: Unit): Text {
    if u == QUOTE || u == BACKSLASH then [BACKSLASH, u]
    else if u == 0x08 then [BACKSLASH, 0x62]
    else if u == 0x09 then [BACKSLASH, 0x74]
    else if u == 0x0A then [BACKSLASH, 0x6E]
    else if u == 0x0C then [BACKSLASH, 0x66]
    else if u == 0x0D then [BACKSLASH, 0x72]
    else if u < 0x20 || High(u) || Low(u) then
      var n := u as int;
      [BACKSLASH, 0x75, Hex(n / 4096), Hex(n / 256 % 16), Hex(n / 16 % 16), Hex(n % 16)]
    else [u]
  }

  /** Length of the first code point of a non-empty text. */
  function PointLength(s: Text): (n: nat)
    requires s != []
    ensures 1 <= n <= |s|
  {
    if |s| >= 2 && High(s[0]) && Low(s[1]) then 2 else 1
  }

  function Point(s: Text): Text
    requires s != []
  {
    if PointLength(s) == 2 then s[..2] else Escaped(s[0])
  }

  function Body(s: Text): Text {
    if s == [] then [] else Point(s) + Body(s[PointLength(s)..])
  }

  function Quote(s: Text): Text { [QUOTE] + Body(s) + [QUOTE] }

  // ------------------------------------------------------------------ quoted text decodes uniquely

  lemma {:induction false} HexInjective(n: int, m: int)
    requires 0 <= n < 0x1_0000 && 0 <= m < 0x1_0000
    requires Hex(n / 4096) == Hex(m / 4096) && Hex(n / 256 % 16) == Hex(m / 256 % 16)
    requires Hex(n / 16 % 16) == Hex(m / 16 % 16) && Hex(n % 16) == Hex(m % 16)
    ensures n == m
  {
    Nibbles(n);
    Nibbles(m);
  }

  lemma {:induction false} Nibbles(n: int)
    requires 0 <= n < 0x1_0000
    ensures n == 4096 * (n / 4096) + 256 * (n / 256 % 16) + 16 * (n / 16 % 16) + n % 16
  {
    assert n / 16 / 16 == n / 256 && n / 256 / 16 == n / 4096;
  }

  /** One plain unit, two units of a short escape, or six of a hexadecimal one; the first two tell which. */
  lemma {:induction false} EscapedShape(u: Unit)
    ensures var e := Escaped(u);
            && (|e| == 1 || |e| == 2 || |e| == 6)
            && (|e| == 1 ==> e == [u] && u != BACKSLASH && !High(u) && !Low(u))
            && (|e| > 1 ==> e[0] == BACKSLASH && (e[1] == 0x75 <==> |e| == 6))
  {
  }

  lemma {:induction false} EscapedInjective(u: Unit, v: Unit)
    requires Escaped(u) == Escaped(v)
    ensures u == v
  {
    hide Hex;
    var e, f := Escaped(u), Escaped(v);
    if |e| == 6 {
      assert e[2] == f[2] && e[3] == f[3] && e[4] == f[4] && e[5] == f[5];
      HexInjective(u as int, v as int);
    } else if |e| == 2 {
      assert e[1] == f[1];
    } else {
      assert e[0] == f[0];
    }
  }

  lemma {:induction false} EscapedPrefix(u: Unit, x: Text, v: Unit, y: Text)
    requires Escaped(u) + x == Escaped(v) + y
    ensures u == v && x == y
  {
    hide Escaped;
    EscapedShape(u);
    EscapedShape(v);
    var e, f := Escaped(u), Escaped(v);
    var a, b := e + x, f + y;
    assert a[0] == e[0] && b[0] == f[0];
    if |e| > 1 && |f| > 1 { assert a[1] == e[1] && b[1] == f[1]; }
    assert |e| == |f|;
    assert e == a[..|e|] && f == b[..|f|];
    EscapedInjective(u, v);
    assert x == a[|e|..] && y == b[|f|..];
  }

  /** The first code point of a quoted text can be read off, whatever follows. */
  lemma {:induction false} PointPrefix(s: Text, x: Text, t: Text, y: Text)
    requires s != [] && t != [] && Point(s) + x == Point(t) + y
    ensures PointLength(s) == PointLength(t) && s[..PointLength(s)] == t[..PointLength(t)]
    ensures Point(s) == Point(t) && x == y
  {
    hide Escaped;
    EscapedShape(s[0]);
    EscapedShape(t[0]);
    var a, b := Point(s) + x, Point(t) + y;
    assert a[0] == Point(s)[0] && b[0] == Point(t)[0];
    if PointLength(s) == 2 && PointLength(t) == 2 {
      assert a[..2] == s[..2] && b[..2] == t[..2];
      assert a[2..] == x && b[2..] == y;
    } else {
      assert PointLength(s) == 1 && PointLength(t) == 1;
      EscapedPrefix(s[0], x, t[0], y);
      assert s[..1] == [s[0]] && t[..1] == [t[0]];
    }
  }

  lemma {:induction false} PointStart(s: Text)
    requires s != []
    ensures Point(s) != [] && Point(s)[0] != QUOTE
  {
  }

  lemma {:induction false} BodyStart(s: Text, x: Text)
    ensures (Body(s) + [QUOTE] + x)[0] == QUOTE <==> s == []
    ensures s == [] ==> (Body(s) + [QUOTE] + x)[1..] == x
  {
    hide Point;
    if s != [] {
      PointStart(s);
      assert (Body(s) + [QUOTE] + x)[0] == Point(s)[0];
    }
  }

  lemma {:induction false} BodyPrefix(s: Text, x: Text, t: Text, y: Text)
    requires Body(s) + [QUOTE] + x == Body(t) + [QUOTE] + y
    ensures s == t && x == y
    decreases |s|
  {
    hide Point;
    var a, b := Body(s) + [QUOTE] + x, Body(t) + [QUOTE] + y;
    BodyStart(s, x);
    BodyStart(t, y);
    if s != [] && t != [] {
      var s', t' := s[PointLength(s)..], t[PointLength(t)..];
      assert a == Point(s) + (Body(s') + [QUOTE] + x);
      assert b == Point(t) + (Body(t') + [QUOTE] + y);
      PointPrefix(s, Body(s') + [QUOTE] + x, t, Body(t') + [QUOTE] + y);
      BodyPrefix(s', x, t', y);
      assert s == s[..PointLength(s)] + s' && t == t[..PointLength(t)] + t';
    }
  }

  lemma {:induction false} QuotePrefix(s: Text, x: Text, t: Text, y: Text)
    requires Quote(s) + x == Quote(t) + y
    ensures s == t && x == y
  {
    var a, b := Quote(s) + x, Quote(t) + y;
    assert a[1..] == Body(s) + [QUOTE] + x && b[1..] == Body(t) + [QUOTE] + y;
    BodyPrefix(s, x, t, y);
  }

  // ------------------------------------------------------------------ bytes

  /** Bytes of the text in UTF-8, a lone surrogate counting as U+FFFD. */
  function Utf8Length(s: Text): nat
    decreases |s|
  {
    if s == [] then 0
    else if High(s[0]) && |s| >= 2 && Low(s[1]) then 4 + Utf8Length(s[2..])
    else UnitBytes(s[0]) + Utf8Length(s[1..])
  }

  function UnitBytes(u: Unit): nat { if u < 0x80 then 1 else if u < 0x800 then 2 else 3 }

  lemma {:induction false} Utf8OfPair(s: Text, t: Text)
    requires |s| >= 2 && High(s[0]) && Low(s[1])
    ensures Utf8Length(s + t) == 4 + Utf8Length(s[2..] + t)
  {
    assert (s + t)[2..] == s[2..] + t;
  }

  lemma {:induction false} Utf8OfUnit(s: Text, t: Text)
    requires s != [] && (!High(s[0]) || (|s| >= 2 && !Low(s[1])))
    ensures Utf8Length(s + t) == UnitBytes(s[0]) + Utf8Length(s[1..] + t)
  {
    hide High, Low, UnitBytes;
    assert (s + t)[1..] == s[1..] + t;
  }

  /** The text does not end in the first half of a pair. */
  predicate Whole(s: Text) { s == [] || !High(s[|s| - 1]) }

  predicate Ascii(s: Text) { forall k | 0 <= k < |s| :: s[k] < 0x80 }

  lemma {:induction false} NothingIsEmpty()
    ensures Utf8Length([]) == 0
  {
  }

  lemma {:induction false} Utf8OfSum(s: Text, t: Text)
    requires Whole(s)
    ensures Utf8Length(s + t) == Utf8Length(s) + Utf8Length(t)
    ensures Whole(t) ==> Whole(s + t)
    decreases |s|
  {
    hide High, Low, Utf8Length;
    assert s + [] == s;
    if s == [] {
      assert s + t == t && Utf8Length([]) == 0 by { NothingIsEmpty(); }
    } else if High(s[0]) && |s| >= 2 && Low(s[1]) {
      Utf8OfSum(s[2..], t);
      Utf8OfPair(s, t);
      Utf8OfPair(s, []);
      assert s[2..] + [] == s[2..];
    } else {
      Utf8OfSum(s[1..], t);
      Utf8OfUnit(s, t);
      Utf8OfUnit(s, []);
      assert s[1..] + [] == s[1..];
    }
  }

  lemma {:induction false} Utf8OfAscii(s: Text)
    requires Ascii(s)
    ensures Utf8Length(s) == |s| && Whole(s)
  {
    if s != [] {
      Utf8OfAscii(s[1..]);
    }
  }

  lemma {:induction false} QuoteIsWhole(s: Text)
    ensures Whole(Quote(s))
  {
    assert Quote(s)[|Quote(s)| - 1] == QUOTE;
  }
}
