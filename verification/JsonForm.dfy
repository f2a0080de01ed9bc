/**
 The form of canonical text: no white space outside strings, no escape that is not needed inside them,
 and numbers in the notation of ECMA-262. Of the texts that are read as a value it is the compact one.
 */
module JsonForm {
  import opened Common
  import opened Utf16
  import opened CanonicalJson
  import opened JsonReader
  import JsonNumbers

  // ------------------------------------------------------------------ compact text

  /** A hexadecimal digit, in lower case. */
  predicate IsHex(u: Unit) { 0x30 <= u <= 0x39 || 0x61 <= u <= 0x66 }

  predicate EscapedLow(t: Text) {
    |t| >= 6 && t[0] == 0x5C && t[1] == 0x75 && var u := ReadHex(t[2..]); u.Some? && Low(u.value)
  }

  /** Four digits that have to be there: for a control character without a letter, or for half a pair on its own. */
  predicate NeedsHex(t: Text) {
    && |t| >= 4 && IsHex(t[0]) && IsHex(t[1]) && IsHex(t[2]) && IsHex(t[3])
    && var u := ReadHex(t);
       && u.Some?
       && (|| (u.value < 0x20 && u.value !in {0x08, 0x09, 0x0A, 0x0C, 0x0D})
           || Low(u.value) || (High(u.value) && !EscapedLow(t[4..])))
  }

  /** Text from outside a string on: there is no white space between the strings. */
  predicate Compact(t: Text)
    decreases |t|
  {
    t == [] || (if t[0] == 0x22 then CompactString(t[1..]) else !IsSpace(t[0]) && Compact(t[1..]))
  }

  /** Text from inside a string on: whatever can stand for itself does, and what has a letter is escaped by it. */
  predicate CompactString(t: Text)
    decreases |t|
  {
    && t != []
    && if t[0] == 0x22 then Compact(t[1..])
       else if t[0] == 0x5C then
         && |t| >= 2
         && if t[1] == 0x75 then NeedsHex(t[2..]) && CompactString(t[6..])
            else t[1] in {0x22, 0x5C, 0x62, 0x66, 0x6E, 0x72, 0x74} && CompactString(t[2..])
       else if High(t[0]) then |t| >= 2 && Low(t[1]) && CompactString(t[2..])
       else t[0] >= 0x20 && !Low(t[0]) && CompactString(t[1..])
  }

  /** Whatever compact text follows, the whole is compact. */
  ghost predicate Keeps(t: Text) { forall x | Compact(x) :: Compact(t + x) }

  lemma {:induction false} SumKeeps(s: Text, t: Text)
    requires Keeps(s) && Keeps(t)
    ensures Keeps(s + t)
  {
    forall x | Compact(x) ensures Compact(s + t + x) {
      assert s + t + x == s + (t + x);
    }
  }

  lemma {:induction false} TokenKeeps(t: Text)
    requires forall k | 0 <= k < |t| :: t[k] != 0x22 && !IsSpace(t[k])
    ensures Keeps(t)
  {
    forall x | Compact(x) ensures Compact(t + x) {
      if t == [] {
        assert t + x == x;
      } else {
        TokenKeeps(t[1..]);
        assert (t + x)[1..] == t[1..] + x;
      }
    }
  }

  // ------------------------------------------------------------------ strings

  /** One code unit that is not half of a pair stands in compact form. */
  lemma {:induction false} EscapedIsCompact(u: Unit, x: Text)
    requires CompactString(x) && (High(u) ==> !EscapedLow(x))
    ensures CompactString(Escaped(u) + x)
  {
    var t := Escaped(u) + x;
    assert t[|Escaped(u)|..] == x;
    EscapedShape(u);
    if |Escaped(u)| == 6 {
      EscapedHexReads(u, x);
      assert t[2..][4..] == x;
    }
  }

  lemma {:induction false} NotEscapedLow(u: Unit, x: Text)
    requires !Low(u)
    ensures !EscapedLow(Escaped(u) + x)
  {
    EscapedShape(u);
    if |Escaped(u)| == 6 { EscapedHexReads(u, x); }
  }

  /** No escaped second half begins the rest of a string after a lone first half. */
  lemma {:induction false} RestIsNotLow(s: Text, x: Text)
    requires s == [] || !Low(s[0])
    ensures !EscapedLow(Body(s) + [QUOTE] + x)
  {
    hide Escaped;
    if s != [] {
      var rest := Body(s[PointLength(s)..]) + [QUOTE] + x;
      assert Body(s) + [QUOTE] + x == Point(s) + rest;
      if PointLength(s) == 1 { NotEscapedLow(s[0], rest); }
    }
  }

  lemma {:induction false} BodyIsCompact(s: Text, x: Text)
    requires Compact(x)
    ensures CompactString(Body(s) + [QUOTE] + x)
    decreases |s|
  {
    hide Escaped, EscapedLow;
    if s == [] {
      assert Body(s) + [QUOTE] + x == [QUOTE] + x;
      assert ([QUOTE] + x)[1..] == x;
    } else {
      var n := PointLength(s);
      var rest := Body(s[n..]) + [QUOTE] + x;
      BodyIsCompact(s[n..], x);
      assert Body(s) + [QUOTE] + x == Point(s) + rest;
      if n == 2 {
        assert (Point(s) + rest)[2..] == rest;
      } else {
        if High(s[0]) { RestIsNotLow(s[1..], x); }
        EscapedIsCompact(s[0], rest);
      }
    }
  }

  lemma {:induction false} QuoteKeeps(s: Text)
    ensures Keeps(Quote(s))
  {
    forall x | Compact(x) ensures Compact(Quote(s) + x) {
      BodyIsCompact(s, x);
      assert (Quote(s) + x)[1..] == Body(s) + [QUOTE] + x;
    }
  }

  // ------------------------------------------------------------------ the only compact form of a string

  lemma {:induction false} HexIsLower(u: Unit)
    requires IsHex(u)
    ensures HexValue(u).Some? && 0 <= HexValue(u).value < 16 && Hex(HexValue(u).value) == u
  {
  }

  lemma {:induction false} Quarters(a: int, b: int, c: int, d: int)
    requires 0 <= a < 16 && 0 <= b < 16 && 0 <= c < 16 && 0 <= d < 16
    ensures var n := a * 4096 + b * 256 + c * 16 + d;
            n / 4096 == a && n / 256 % 16 == b && n / 16 % 16 == c && n % 16 == d
  {
    var n := a * 4096 + b * 256 + c * 16 + d;
    assert n / 16 == a * 256 + b * 16 + c && n / 256 == a * 16 + b && n / 4096 == a;
  }

  /** Four digits that have to be there are the ones a code unit is escaped by. */
  lemma {:induction false} NeededIsEscaped(t: Text)
    requires |t| >= 6 && t[0] == 0x5C && t[1] == 0x75 && NeedsHex(t[2..])
    ensures ReadHex(t[2..]).Some? && Escaped(ReadHex(t[2..]).value) == t[..6]
  {
    hide EscapedLow, HexValue;
    HexIsLower(t[2]);
    HexIsLower(t[3]);
    HexIsLower(t[4]);
    HexIsLower(t[5]);
    Quarters(HexValue(t[2]).value, HexValue(t[3]).value, HexValue(t[4]).value, HexValue(t[5]).value);
  }

  /** A unit goes on with the rest, unless the two are the halves of a pair. */
  lemma {:induction false} UnitGoesFirst(u: Unit, s: Text, x: Text)
    requires High(u) ==> s == [] || !Low(s[0])
    ensures Body([u] + s) + [QUOTE] + x == Escaped(u) + (Body(s) + [QUOTE] + x)
  {
    hide Escaped;
    assert ([u] + s)[1..] == s;
    assert Body([u] + s) == Escaped(u) + Body(s);
  }

  lemma {:induction false} PairGoesFirst(h: Unit, l: Unit, s: Text, x: Text)
    requires High(h) && Low(l)
    ensures Body([h, l] + s) + [QUOTE] + x == [h, l] + (Body(s) + [QUOTE] + x)
  {
    assert ([h, l] + s)[2..] == s && ([h, l] + s)[..2] == [h, l];
  }

  /** A text whose content begins with a second half begins with its escape. */
  lemma {:induction false} LowComesEscaped(s: Text, x: Text)
    requires s != [] && Low(s[0])
    ensures EscapedLow(Body(s) + [QUOTE] + x)
  {
    hide Hex;
    var u, rest := s[0], Body(s[1..]) + [QUOTE] + x;
    var n := u as int;
    assert Body(s) + [QUOTE] + x == Escaped(u) + rest;
    EscapedHexReads(u, rest);
    assert (Escaped(u) + rest)[2..] == [Hex(n / 4096), Hex(n / 256 % 16), Hex(n / 16 % 16), Hex(n % 16)] + rest;
  }

  /**
   Of all the texts that a reader takes for one string, the quoted one is the only one in compact form.
   */
  lemma {:induction false} CompactStringIsQuoted(t: Text, s: Text, x: Text)
    requires ReadChars(t) == Some((s, x)) && CompactString(t)
    ensures t == Body(s) + [QUOTE] + x
    decreases |t|
  {
    hide Escaped, Body, NeedsHex, EscapedLow, ReadHex;
    if t[0] == 0x22 {
      assert Body([]) == [] by { NothingInside(); }
      assert t == [QUOTE] + t[1..];
    } else if t[0] == 0x5C && t[1] == 0x75 {
      EscapedUnitIsQuoted(t, s, x);
    } else if t[0] == 0x5C {
      var u, rest := Unescaped(t[1]).value, ReadChars(t[2..]).value.0;
      CompactStringIsQuoted(t[2..], rest, x);
      LetterIsEscaped(t[1]);
      UnitGoesFirst(u, rest, x);
      assert t == t[..2] + t[2..];
    } else if High(t[0]) {
      var rest := PairIsRead(t, s, x);
      CompactStringIsQuoted(t[2..], rest, x);
      PairGoesFirst(t[0], t[1], rest, x);
      assert t == [t[0], t[1]] + t[2..];
    } else {
      var rest := ReadChars(t[1..]).value.0;
      CompactStringIsQuoted(t[1..], rest, x);
      PlainIsItself(t[0]);
      UnitGoesFirst(t[0], rest, x);
      assert t == [t[0]] + t[1..];
    }
  }

  lemma {:induction false} EscapedUnitIsQuoted(t: Text, s: Text, x: Text)
    requires ReadChars(t) == Some((s, x)) && CompactString(t) && |t| >= 2 && t[0] == 0x5C && t[1] == 0x75
    ensures t == Body(s) + [QUOTE] + x
    decreases |t|, 0
  {
    hide Escaped, Body, ReadHex, EscapedLow;
    NeededIsEscaped(t);
    var u, rest := ReadHex(t[2..]).value, ReadChars(t[6..]).value.0;
    CompactStringIsQuoted(t[6..], rest, x);
    assert t[2..][4..] == t[6..];
    if rest != [] && Low(rest[0]) { LowComesEscaped(rest, x); }
    UnitGoesFirst(u, rest, x);
    assert t == t[..6] + t[6..];
  }

  lemma {:induction false} NothingInside()
    ensures Body([]) == []
  {
  }

  lemma {:induction false} LetterIsEscaped(u: Unit)
    requires u in {0x22, 0x5C, 0x62, 0x66, 0x6E, 0x72, 0x74}
    ensures Unescaped(u).Some? && Escaped(Unescaped(u).value) == [0x5C, u] && !High(Unescaped(u).value)
  {
  }

  lemma {:induction false} PlainIsItself(u: Unit)
    requires u >= 0x20 && u != 0x22 && u != 0x5C && !High(u) && !Low(u)
    ensures Escaped(u) == [u]
  {
  }

  lemma {:induction false} PairIsRead(t: Text, s: Text, x: Text) returns (rest: Text)
    requires ReadChars(t) == Some((s, x)) && |t| >= 2 && High(t[0]) && Low(t[1])
    ensures ReadChars(t[2..]) == Some((rest, x)) && s == [t[0], t[1]] + rest
  {
    PairReads(t[0], t[1], t[2..]);
    assert t == [t[0], t[1]] + t[2..];
    rest := ReadChars(t[2..]).value.0;
  }

  // ------------------------------------------------------------------ values

  lemma {:induction false} JoinKeeps(parts: seq<Text>)
    requires forall p | p in parts :: Keeps(p)
    ensures Keeps(Join(parts))
  {
    hide Keeps;
    if parts == [] {
      TokenKeeps([]);
    } else if |parts| > 1 {
      JoinKeeps(parts[1..]);
      TokenKeeps([COMMA]);
      SumKeeps(parts[0], [COMMA]);
      SumKeeps(parts[0] + [COMMA], Join(parts[1..]));
    }
  }

  lemma {:induction false} BracketsKeep(open: Unit, t: Text, close: Unit)
    requires Keeps(t) && open in {OPEN_ARRAY, OPEN_OBJECT} && close in {CLOSE_ARRAY, CLOSE_OBJECT}
    ensures Keeps([open] + t + [close])
  {
    hide Keeps;
    TokenKeeps([open]);
    TokenKeeps([close]);
    SumKeeps([open], t);
    SumKeeps([open] + t, [close]);
  }

  lemma {:induction false} MemberKeeps(m: Member)
    requires Keeps(m.value)
    ensures Keeps(m.Print())
  {
    hide Keeps, Quote;
    QuoteKeeps(m.key);
    TokenKeeps([COLON]);
    SumKeeps(Quote(m.key), [COLON]);
    SumKeeps(Quote(m.key) + [COLON], m.value);
  }

  lemma {:induction false} PrintKeeps(v: Json)
    ensures Keeps(Print(v))
    decreases v
  {
    hide Keeps, Join, Quote, JsonNumbers.Print;
    match v
    case Null => TokenKeeps(NULL);
    case Bool(b) => TokenKeeps(Print(v));
    case Num(n) => JsonNumbers.PrintShape(n); TokenKeeps(Print(v));
    case Str(s) => QuoteKeeps(s);
    case Arr(items) =>
      forall p | p in PrintItems(v) ensures Keeps(p) {
        var i :| 0 <= i < |items| && PrintItems(v)[i] == p;
        PrintKeeps(items[i]);
      }
      JoinKeeps(PrintItems(v));
      BracketsKeep(OPEN_ARRAY, Join(PrintItems(v)), CLOSE_ARRAY);
    case Obj(fields) => FieldsKeep(v);
  }

  lemma {:induction false} FieldsKeep(v: Json)
    requires v.Obj?
    ensures Keeps(Print(v))
    decreases v, 0
  {
    hide Keeps, Join, Quote, Sorted, Members;
    var ms := Sorted(Members(v));
    SortedMembers(Members(v));
    forall p | p in PrintAll(ms) ensures Keeps(p) {
      var k :| 0 <= k < |ms| && PrintAll(ms)[k] == p;
      var i := MemberIsField(v, ms[k]);
      PrintKeeps(v.fields[i].value);
      MemberKeeps(ms[k]);
    }
    JoinKeeps(PrintAll(ms));
    BracketsKeep(OPEN_OBJECT, Join(PrintAll(ms)), CLOSE_OBJECT);
  }

  /**
   Canonical text has no white space outside its strings; inside them every code unit that may stand
   for itself does, a control character with a letter is escaped by it, and only the others and the
   halves of pairs that stand alone are escaped by four lower-case hexadecimal digits.
   */
  lemma {:induction false} CanonicalTextIsCompact(v: Json)
    ensures Compact(Print(v))
  {
    PrintKeeps(v);
    assert Print(v) + [] == Print(v);
  }

  // ------------------------------------------------------------------ numbers

  lemma {:induction false} NoZeroInFront(n: nat)
    requires n > 0
    ensures JsonNumbers.Digits(n)[0] != ZERO
  {
    if n >= 10 {
      NoZeroInFront(n / 10);
      JsonNumbers.DigitsAreDigits(n / 10);
    }
  }

  lemma {:induction false} OnlyDigits(s: JsonNumbers.Significand, n: nat)
    ensures JsonNumbers.EXPONENT !in s && JsonNumbers.DOT !in s
    ensures JsonNumbers.EXPONENT !in JsonNumbers.Zeros(n) && JsonNumbers.DOT !in JsonNumbers.Zeros(n)
    ensures JsonNumbers.DOT !in JsonNumbers.Digits(n) && JsonNumbers.EXPONENT !in JsonNumbers.Digits(n)
  {
    JsonNumbers.DigitsAreDigits(n);
  }

  /** In plain notation. */
  lemma {:induction false} PlainNotation(s: JsonNumbers.Significand, n: int)
    requires -6 < n <= 21
    ensures var t := JsonNumbers.Positional(s, n);
            && t != [] && JsonNumbers.EXPONENT !in t
            && (JsonNumbers.DOT in t <==> n < |s|)
            && (JsonNumbers.DOT in t ==> t[|t| - 1] != ZERO)
  {
    hide JsonNumbers.Digits, JsonNumbers.Zeros;
    var t := JsonNumbers.Positional(s, n);
    OnlyDigits(s, if n <= 0 then -n else if n >= |s| then n - |s| else 0);
    if n <= 0 {
      assert t[1] == JsonNumbers.DOT;
    } else if n < |s| {
      assert t[n] == JsonNumbers.DOT;
    }
  }

  /** The mantissa has one digit before its point and no zero at its ends. */
  lemma {:induction false} MantissaIs(s: JsonNumbers.Significand)
    ensures var m := JsonNumbers.Mantissa(s);
            && m != [] && m[0] != ZERO && m[|m| - 1] != ZERO && JsonNumbers.EXPONENT !in m
            && (JsonNumbers.DOT in m <==> |m| > 1) && (|m| > 1 ==> m[1] == JsonNumbers.DOT)
            && (|m| > 1 <==> |s| > 1)
  {
    OnlyDigits(s, 0);
  }

  /** One digit before the point, a sign, and no zero where none is needed. */
  ghost predicate Exponential(t: Text, n: int, m: Text, e: Text) {
    && t == m + [JsonNumbers.EXPONENT, if n > 0 then JsonNumbers.PLUS else MINUS] + e
    && m != [] && m[0] != ZERO && m[|m| - 1] != ZERO && (|m| > 1 ==> m[1] == JsonNumbers.DOT)
    && e != [] && e[0] != ZERO
  }

  /** In exponent notation. */
  lemma {:induction false} ExponentNotation(s: JsonNumbers.Significand, n: int)
    requires n <= -6 || 21 < n
    ensures var t := JsonNumbers.Positional(s, n);
            && JsonNumbers.EXPONENT in t && (JsonNumbers.DOT in t <==> 1 < |s|)
            && exists m, e :: Exponential(t, n, m, e)
  {
    hide JsonNumbers.Digits, JsonNumbers.Zeros, JsonNumbers.Mantissa;
    var m, e := JsonNumbers.Mantissa(s), JsonNumbers.Digits(if n > 0 then n - 1 else 1 - n);
    MantissaIs(s);
    OnlyDigits(s, if n > 0 then n - 1 else 1 - n);
    NoZeroInFront(if n > 0 then n - 1 else 1 - n);
    JsonNumbers.DigitsAreDigits(if n > 0 then n - 1 else 1 - n);
    assert Exponential(JsonNumbers.Positional(s, n), n, m, e) by { PositionalWithExponent(s, n); }
    PointBefore(m, if n > 0 then JsonNumbers.PLUS else MINUS, e);
  }

  lemma {:induction false} PositionalWithExponent(s: JsonNumbers.Significand, n: int)
    requires n <= -6 || 21 < n
    ensures JsonNumbers.Positional(s, n)
            == JsonNumbers.Mantissa(s) + [JsonNumbers.EXPONENT, if n > 0 then JsonNumbers.PLUS else MINUS]
               + JsonNumbers.Digits(if n > 0 then n - 1 else 1 - n)
  {
    hide JsonNumbers.Digits, JsonNumbers.Zeros, JsonNumbers.Mantissa;
  }

  lemma {:induction false} PointBefore(m: Text, sign: Unit, e: Text)
    requires sign != JsonNumbers.DOT && JsonNumbers.DOT !in e
    ensures var t := m + [JsonNumbers.EXPONENT, sign] + e;
            JsonNumbers.EXPONENT in t && (JsonNumbers.DOT in t <==> JsonNumbers.DOT in m)
  {
    var t := m + [JsonNumbers.EXPONENT, sign] + e;
    assert t[|m|] == JsonNumbers.EXPONENT;
    if k :| 0 <= k < |m| && m[k] == JsonNumbers.DOT { assert t[k] == JsonNumbers.DOT; }
  }

  /** The text of a number behind its sign. */
  function Magnitude(a: JsonNumbers.Number): Text
    requires a.Scaled?
  {
    if a.negative then JsonNumbers.Print(a)[1..] else JsonNumbers.Print(a)
  }

  /**
   A number has an exponent exactly when it is below a millionth or at least ten to the 21st; then one
   digit other than zero stands before its point, and the exponent has a sign and no leading zero. It
   has a point exactly when digits follow it, the last of which is not zero.
   */
  lemma {:induction false} NotationIs(a: JsonNumbers.Number)
    requires a.Scaled?
    ensures var t := Magnitude(a);
            && JsonNumbers.Print(a) == (if a.negative then [MINUS] else []) + t
            && (JsonNumbers.EXPONENT in t <==> a.n <= -6 || 21 < a.n)
            && (JsonNumbers.DOT in t <==> if JsonNumbers.EXPONENT in t then 1 < |a.s| else a.n < |a.s|)
            && (if JsonNumbers.EXPONENT in t then
                  exists m, e :: Exponential(t, a.n, m, e)
                else t != [] && (JsonNumbers.DOT in t ==> t[|t| - 1] != ZERO))
  {
    hide JsonNumbers.Positional, Exponential;
    var t := JsonNumbers.Positional(a.s, a.n);
    assert ([MINUS] + t)[1..] == t;
    assert Magnitude(a) == t;
    if -6 < a.n <= 21 { PlainNotation(a.s, a.n); } else { ExponentNotation(a.s, a.n); }
  }
}
