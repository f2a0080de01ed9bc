/**
 A reader of JSON text, after the grammar of RFC 8259, and what it makes of canonical text. It knows
 nothing of how that text was printed.
 */
module JsonReader {
  import opened Common
  import opened Utf16
  import opened CanonicalJson
  import JsonNumbers

  /** What was read, and what is left of the text. */
  type Read<T> = Option<(T, Text)>

  // ------------------------------------------------------------------ white space and literals (sections 2 and 3)

  predicate IsSpace(u: Unit) { u == 0x20 || u == 0x09 || u == 0x0A || u == 0x0D }

  function Skip(t: Text): (r: Text)
    ensures |r| <= |t|
  {
    if t != [] && IsSpace(t[0]) then Skip(t[1..]) else t
  }

  /** The text goes on with the token. */
  predicate Begins(t: Text, token: Text) { |token| <= |t| && t[..|token|] == token }

  // ------------------------------------------------------------------ strings (section 7)

  /** The value of a hexadecimal digit, in either case. */
  function HexValue(u: Unit): Option<int> {
    if 0x30 <= u <= 0x39 then Some(u as int - 0x30)
    else if 0x41 <= u <= 0x46 then Some(u as int - 0x41 + 10)
    else if 0x61 <= u <= 0x66 then Some(u as int - 0x61 + 10)
    else None
  }

  /** Four hexadecimal digits. */
  function ReadHex(t: Text): Option<Unit> {
    if |t| < 4 then None else
    var a, b, c, d := HexValue(t[0]), HexValue(t[1]), HexValue(t[2]), HexValue(t[3]);
    if a.None? || b.None? || c.None? || d.None? then None
    else
      HexInRange(t[0]);
      HexInRange(t[1]);
      HexInRange(t[2]);
      HexInRange(t[3]);
      Some((a.value * 4096 + b.value * 256 + c.value * 16 + d.value) as Unit)
  }

  lemma {:induction false} HexInRange(u: Unit)
    ensures HexValue(u).Some? ==> 0 <= HexValue(u).value < 16
  {
  }

  /** What stands for itself or for a control character behind a backslash. */
  function Unescaped(u: Unit): Option<Unit> {
    if u == 0x22 || u == 0x5C || u == 0x2F then Some(u)
    else if u == 0x62 then Some(0x08)
    else if u == 0x66 then Some(0x0C)
    else if u == 0x6E then Some(0x0A)
    else if u == 0x72 then Some(0x0D)
    else if u == 0x74 then Some(0x09)
    else None
  }

  /** The rest of a string behind its opening quotation mark. */
  function ReadChars(t: Text): (r: Read<Text>)
    ensures r.Some? ==> |r.value.1| < |t|
    decreases |t|
  {
    if t == [] || t[0] < 0x20 then None
    else if t[0] == 0x22 then Some(([], t[1..]))
    else if t[0] != 0x5C then Prepend([t[0]], ReadChars(t[1..]))
    else if |t| < 2 then None
    else if t[1] == 0x75 then
      var u := ReadHex(t[2..]);
      if u.None? then None else Prepend([u.value], ReadChars(t[6..]))
    else
      var u := Unescaped(t[1]);
      if u.None? then None else Prepend([u.value], ReadChars(t[2..]))
  }

  function Prepend(s: Text, r: Read<Text>): Read<Text> {
    if r.None? then None else Some((s + r.value.0, r.value.1))
  }

  // ------------------------------------------------------------------ numbers (section 6)

  predicate IsDecimal(u: Unit) { 0x30 <= u <= 0x39 }

  /** How many decimal digits the text begins with. */
  function Span(t: Text): (n: nat)
    ensures n <= |t| && forall k | 0 <= k < n :: IsDecimal(t[k])
    ensures n < |t| ==> !IsDecimal(t[n])
  {
    if t != [] && IsDecimal(t[0]) then 1 + Span(t[1..]) else 0
  }

  function DigitsValue(t: Text): int
    requires forall k | 0 <= k < |t| :: IsDecimal(t[k])
  {
    if t == [] then 0 else DigitsValue(t[..|t| - 1]) * 10 + (t[|t| - 1] as int - 0x30)
  }

  /** The fraction behind its point, if there is one: at least one digit. */
  function ReadFraction(t: Text): (r: Read<Text>)
    ensures r.Some? ==> |r.value.1| <= |t| && forall k | 0 <= k < |r.value.0| :: IsDecimal(r.value.0[k])
  {
    if t == [] || t[0] != 0x2E then Some(([], t)) else
    var n := Span(t[1..]);
    if n == 0 then None else Some((t[1..][..n], t[1..][n..]))
  }

  /** The exponent, if there is one: a letter, perhaps a sign, at least one digit. */
  function ReadExponent(t: Text): (r: Read<int>)
    ensures r.Some? ==> |r.value.1| <= |t|
  {
    if t == [] || (t[0] != 0x65 && t[0] != 0x45) then Some((0, t)) else
    var signed := |t| >= 2 && (t[1] == 0x2B || t[1] == 0x2D);
    var digits := if signed then t[2..] else t[1..];
    var n := Span(digits);
    if n == 0 then None else
    var value := DigitsValue(digits[..n]);
    Some((if signed && t[1] == 0x2D then -value else value, digits[n..]))
  }

  lemma {:induction false} DecimalIsDigit(t: Text)
    requires forall k | 0 <= k < |t| :: IsDecimal(t[k])
    ensures forall k | 0 <= k < |t| :: JsonNumbers.IsDigit(t[k])
  {
  }

  /** The number that 0.`digits` times 10 to the `n` is, in its shortest form. */
  function Scale(negative: bool, digits: Text, n: int): JsonNumbers.Number
    requires forall k | 0 <= k < |digits| :: IsDecimal(digits[k])
  {
    if digits == [] then JsonNumbers.Zero(negative)
    else if digits[0] == 0x30 then Scale(negative, digits[1..], n - 1)
    else if digits[|digits| - 1] == 0x30 then Scale(negative, digits[..|digits| - 1], n)
    else
      DecimalIsDigit(digits);
      JsonNumbers.Scaled(negative, digits, n)
  }

  /** A number without its sign: no digits may follow a leading zero. */
  function ReadMagnitude(t: Text, negative: bool): (r: Read<JsonNumbers.Number>)
    ensures r.Some? ==> |r.value.1| < |t|
  {
    var n := Span(t);
    if n == 0 || (n > 1 && t[0] == 0x30) then None else
    var fraction := ReadFraction(t[n..]);
    if fraction.None? then None else
    var exponent := ReadExponent(fraction.value.1);
    if exponent.None? then None else
    Some((Scale(negative, t[..n] + fraction.value.0, n + exponent.value.0), exponent.value.1))
  }

  function ReadNumber(t: Text): (r: Read<JsonNumbers.Number>)
    ensures r.Some? ==> |r.value.1| < |t|
  {
    if t != [] && t[0] == 0x2D then ReadMagnitude(t[1..], true) else ReadMagnitude(t, false)
  }

  // ------------------------------------------------------------------ values, arrays and objects (sections 3 to 5)

  function ReadValue(text: Text): (r: Read<Json>)
    ensures r.Some? ==> |r.value.1| < |text|
    decreases |text|, 1
  {
    var t := Skip(text);
    if t == [] then None
    else if Begins(t, [0x6E, 0x75, 0x6C, 0x6C]) then Some((Null, t[4..]))
    else if Begins(t, [0x74, 0x72, 0x75, 0x65]) then Some((Bool(true), t[4..]))
    else if Begins(t, [0x66, 0x61, 0x6C, 0x73, 0x65]) then Some((Bool(false), t[5..]))
    else if t[0] == 0x22 then
      var s := ReadChars(t[1..]);
      if s.None? then None else Some((Str(s.value.0), s.value.1))
    else if t[0] == 0x5B then
      var u := Skip(t[1..]);
      if Begins(u, [0x5D]) then Some((Arr([]), u[1..])) else
      var items := ReadItems(u);
      if items.None? then None else Some((Arr(items.value.0), items.value.1))
    else if t[0] == 0x7B then
      var u := Skip(t[1..]);
      if Begins(u, [0x7D]) then Some((Obj([]), u[1..])) else
      var fields := ReadFields(u);
      if fields.None? then None else Some((Obj(fields.value.0), fields.value.1))
    else
      var n := ReadNumber(t);
      if n.None? then None else Some((Num(n.value.0), n.value.1))
  }

  /** Values up to the closing bracket. */
  function ReadItems(text: Text): (r: Read<seq<Json>>)
    ensures r.Some? ==> |r.value.1| < |text|
    decreases |text|, 2
  {
    var first := ReadValue(text);
    if first.None? then None else
    var t := Skip(first.value.1);
    if Begins(t, [0x5D]) then Some(([first.value.0], t[1..]))
    else if !Begins(t, [0x2C]) then None
    else
      var rest := ReadItems(t[1..]);
      if rest.None? then None else Some(([first.value.0] + rest.value.0, rest.value.1))
  }

  /** Properties up to the closing brace. */
  function ReadFields(text: Text): (r: Read<seq<Field>>)
    ensures r.Some? ==> |r.value.1| < |text|
    decreases |text|, 2
  {
    var t := Skip(text);
    if !Begins(t, [0x22]) then None else
    var key := ReadChars(t[1..]);
    if key.None? then None else
    var u := Skip(key.value.1);
    if !Begins(u, [0x3A]) then None else
    var value := ReadValue(u[1..]);
    if value.None? then None else
    var field := Field(key.value.0, value.value.0);
    var v := Skip(value.value.1);
    if Begins(v, [0x7D]) then Some(([field], v[1..]))
    else if !Begins(v, [0x2C]) then None
    else
      var rest := ReadFields(v[1..]);
      if rest.None? then None else Some(([field] + rest.value.0, rest.value.1))
  }

  // ------------------------------------------------------------------ strings read back

  lemma {:induction false} HexReads(d: int)
    requires 0 <= d < 16
    ensures HexValue(Hex(d)) == Some(d)
  {
  }

  lemma {:induction false} FourNibbles(n: int)
    requires 0 <= n < 0x1_0000
    ensures n / 4096 < 16 && n / 4096 * 4096 + n / 256 % 16 * 256 + n / 16 % 16 * 16 + n % 16 == n
  {
    Nibbles(n);
  }

  lemma {:induction false} EscapedHexReads(u: Unit, x: Text)
    ensures var n := u as int;
            var t := [Hex(n / 4096), Hex(n / 256 % 16), Hex(n / 16 % 16), Hex(n % 16)] + x;
            ReadHex(t) == Some(u)
  {
    var n := u as int;
    HexReads(n / 4096);
    HexReads(n / 256 % 16);
    HexReads(n / 16 % 16);
    HexReads(n % 16);
    FourNibbles(n);
  }

  /** A unit that is not half of a pair is read back from its escape. */
  lemma {:induction false} EscapedReads(u: Unit, x: Text)
    ensures ReadChars(Escaped(u) + x) == Prepend([u], ReadChars(x))
  {
    hide ReadHex, Hex;
    var t := Escaped(u) + x;
    if Escaped(u) == [u] {
      assert t[1..] == x;
    } else if |Escaped(u)| == 2 {
      assert t[2..] == x;
    } else {
      var n := u as int;
      assert t[2..] == [Hex(n / 4096), Hex(n / 256 % 16), Hex(n / 16 % 16), Hex(n % 16)] + x && t[6..] == x;
      EscapedHexReads(u, x);
    }
  }

  lemma {:induction false} PairReads(h: Unit, l: Unit, x: Text)
    requires High(h) && Low(l)
    ensures ReadChars([h, l] + x) == Prepend([h, l], ReadChars(x))
  {
    var t := [h, l] + x;
    assert t[1..] == [l] + x && ([l] + x)[1..] == x;
    var r := ReadChars(x);
    if r.Some? { assert [h] + ([l] + r.value.0) == [h, l] + r.value.0; }
  }

  lemma {:induction false} BodyReads(s: Text, x: Text)
    ensures ReadChars(Body(s) + [QUOTE] + x) == Some((s, x))
    decreases |s|
  {
    hide ReadChars, Escaped;
    if s == [] {
      assert Body(s) + [QUOTE] + x == [QUOTE] + x;
      QuoteEnds(x);
    } else {
      var n := PointLength(s);
      var y := Body(s[n..]) + [QUOTE] + x;
      BodyReads(s[n..], x);
      assert Body(s) + [QUOTE] + x == Point(s) + y;
      if n == 2 {
        assert s[..2] == [s[0], s[1]];
        PairReads(s[0], s[1], y);
        assert s == [s[0], s[1]] + s[2..];
      } else {
        EscapedReads(s[0], y);
        assert s == [s[0]] + s[1..];
      }
    }
  }

  lemma {:induction false} QuoteEnds(x: Text)
    ensures ReadChars([QUOTE] + x) == Some(([], x))
  {
    assert ([QUOTE] + x)[1..] == x;
  }

  lemma {:induction false} QuoteReads(s: Text, x: Text)
    ensures Quote(s) + x != [] && (Quote(s) + x)[0] == QUOTE
    ensures ReadChars((Quote(s) + x)[1..]) == Some((s, x))
  {
    hide ReadChars;
    assert (Quote(s) + x)[1..] == Body(s) + [QUOTE] + x;
    BodyReads(s, x);
  }

  // ------------------------------------------------------------------ numbers read back

  predicate AllDecimal(t: Text) { forall k | 0 <= k < |t| :: IsDecimal(t[k]) }

  lemma {:induction false} SpanOf(d: Text, x: Text)
    requires AllDecimal(d) && (x == [] || !IsDecimal(x[0]))
    ensures Span(d + x) == |d| && (d + x)[..|d|] == d && (d + x)[|d|..] == x
  {
    if d == [] {
      assert d + x == x;
    } else {
      SpanOf(d[1..], x);
      assert (d + x)[1..] == d[1..] + x;
    }
  }

  lemma {:induction false} DigitsRead(n: nat)
    ensures AllDecimal(JsonNumbers.Digits(n)) && JsonNumbers.Digits(n) != []
    ensures DigitsValue(JsonNumbers.Digits(n)) == n
  {
    var t := JsonNumbers.Digits(n);
    if n >= 10 { DigitsRead(n / 10); }
    assert t[..|t| - 1] == if n < 10 then [] else JsonNumbers.Digits(n / 10);
    assert t[|t| - 1] == ZERO + (n % 10) as Unit;
  }

  lemma {:induction false} NoFraction(x: Text)
    requires x == [] || x[0] != JsonNumbers.DOT
    ensures ReadFraction(x) == Some(([], x))
  {
  }

  lemma {:induction false} FractionReads(d: Text, x: Text)
    requires d != [] && AllDecimal(d) && (x == [] || !IsDecimal(x[0]))
    ensures ReadFraction([JsonNumbers.DOT] + d + x) == Some((d, x))
  {
    SpanOf(d, x);
    assert ([JsonNumbers.DOT] + d + x)[1..] == d + x;
  }

  lemma {:induction false} NoExponent(x: Text)
    requires Ends(x)
    ensures ReadExponent(x) == Some((0, x))
  {
  }

  lemma {:induction false} ExponentReads(e: int, x: Text)
    requires Ends(x)
    ensures ReadExponent([JsonNumbers.EXPONENT] + JsonNumbers.SignedExponent(e) + x) == Some((e, x))
  {
    hide JsonNumbers.Digits, DigitsValue;
    var d := JsonNumbers.Digits(if e >= 0 then e else -e);
    var t := [JsonNumbers.EXPONENT] + JsonNumbers.SignedExponent(e) + x;
    DigitsRead(if e >= 0 then e else -e);
    SpanOf(d, x);
    assert t[2..] == d + x;
    assert t[1] == if e >= 0 then JsonNumbers.PLUS else MINUS;
  }

  lemma {:induction false} SignificandShape(s: JsonNumbers.Significand)
    ensures s != [] && AllDecimal(s) && s[0] != 0x30 && s[|s| - 1] != 0x30
  {
    assert forall k | 0 <= k < |s| :: JsonNumbers.IsDigit(s[k]);
  }

  lemma {:induction false} ScalesToItself(negative: bool, s: JsonNumbers.Significand, n: int)
    ensures AllDecimal(s) && Scale(negative, s, n) == JsonNumbers.Scaled(negative, s, n)
  {
    SignificandShape(s);
  }

  lemma {:induction false} TrailingZerosGo(negative: bool, s: JsonNumbers.Significand, m: nat, n: int)
    ensures AllDecimal(s + JsonNumbers.Zeros(m))
    ensures Scale(negative, s + JsonNumbers.Zeros(m), n) == JsonNumbers.Scaled(negative, s, n)
  {
    SignificandShape(s);
    var t := s + JsonNumbers.Zeros(m);
    assert AllDecimal(t);
    if m == 0 {
      assert t == s;
      ScalesToItself(negative, s, n);
    } else {
      assert t[..|t| - 1] == s + JsonNumbers.Zeros(m - 1);
      assert t[0] == s[0] && t[|t| - 1] == 0x30;
      TrailingZerosGo(negative, s, m - 1, n);
    }
  }

  lemma {:induction false} LeadingZerosGo(negative: bool, m: nat, s: JsonNumbers.Significand, n: int)
    ensures AllDecimal(JsonNumbers.Zeros(m) + s)
    ensures Scale(negative, JsonNumbers.Zeros(m) + s, n) == JsonNumbers.Scaled(negative, s, n - m)
  {
    SignificandShape(s);
    var t := JsonNumbers.Zeros(m) + s;
    assert AllDecimal(t);
    if m == 0 {
      assert t == s;
      ScalesToItself(negative, s, n);
    } else {
      assert t[1..] == JsonNumbers.Zeros(m - 1) + s;
      LeadingZerosGo(negative, m - 1, s, n - 1);
    }
  }

  /** The parts of a magnitude, read one after the other. */
  lemma {:induction false} PartsRead(whole: Text, y: Text, fraction: Text, z: Text, e: int, x: Text, negative: bool)
    requires whole != [] && AllDecimal(whole) && (|whole| > 1 ==> whole[0] != 0x30) && (y == [] || !IsDecimal(y[0]))
    requires ReadFraction(y) == Some((fraction, z)) && ReadExponent(z) == Some((e, x)) && AllDecimal(fraction)
    ensures AllDecimal(whole + fraction)
    ensures ReadMagnitude(whole + y, negative) == Some((Scale(negative, whole + fraction, |whole| + e), x))
  {
    hide ReadFraction, ReadExponent, Scale;
    SpanOf(whole, y);
    assert (whole + y)[0] == whole[0];
  }

  lemma {:induction false} PointRead(whole: Text, fraction: Text, y: Text, e: int, x: Text, negative: bool)
    requires whole != [] && AllDecimal(whole) && (|whole| > 1 ==> whole[0] != 0x30)
    requires fraction != [] && AllDecimal(fraction) && (y == [] || !IsDecimal(y[0])) && ReadExponent(y) == Some((e, x))
    ensures AllDecimal(whole + fraction)
    ensures ReadMagnitude(whole + [JsonNumbers.DOT] + fraction + y, negative)
            == Some((Scale(negative, whole + fraction, |whole| + e), x))
  {
    hide ReadMagnitude, ReadFraction, ReadExponent, Scale;
    FractionReads(fraction, y);
    var z := [JsonNumbers.DOT] + fraction + y;
    PartsRead(whole, z, fraction, y, e, x, negative);
    assert whole + [JsonNumbers.DOT] + fraction + y == whole + z;
  }

  lemma {:induction false} PositionalReads(s: JsonNumbers.Significand, n: int, x: Text, negative: bool)
    requires Ends(x)
    ensures ReadMagnitude(JsonNumbers.Positional(s, n) + x, negative) == Some((JsonNumbers.Scaled(negative, s, n), x))
  {
    hide ReadMagnitude, ReadFraction, ReadExponent, Scale, JsonNumbers.SignedExponent;
    SignificandShape(s);
    var p, k := JsonNumbers.Positional(s, n), |s|;
    NoExponent(x);
    if k <= n <= 21 {
      var whole := s + JsonNumbers.Zeros(n - k);
      TrailingZerosGo(negative, s, n - k, n);
      NoFraction(x);
      PartsRead(whole, x, [], x, 0, x, negative);
      assert whole + [] == whole;
    } else if 0 < n <= 21 {
      PointRead(s[..n], s[n..], x, 0, x, negative);
      assert s[..n] + s[n..] == s;
      ScalesToItself(negative, s, n);
    } else if -6 < n <= 0 {
      var rest := JsonNumbers.Zeros(-n) + s;
      LeadingZerosGo(negative, -n, s, 0);
      LeadingZerosGo(negative, 1 - n, s, 1);
      PointRead([ZERO], rest, x, 0, x, negative);
      assert p + x == [ZERO] + [JsonNumbers.DOT] + rest + x;
      assert [ZERO] + rest == JsonNumbers.Zeros(1 - n) + s;
    } else {
      ExponentialReads(s, n, x, negative);
    }
  }

  lemma {:induction false} MantissaReads(s: JsonNumbers.Significand, y: Text, e: int, x: Text, negative: bool)
    requires y != [] && y[0] == JsonNumbers.EXPONENT && ReadExponent(y) == Some((e, x))
    ensures ReadMagnitude(JsonNumbers.Mantissa(s) + y, negative) == Some((JsonNumbers.Scaled(negative, s, 1 + e), x))
  {
    hide ReadMagnitude, ReadFraction, ReadExponent, Scale, JsonNumbers.Shortest;
    SignificandShape(s);
    ScalesToItself(negative, s, 1 + e);
    if |s| == 1 {
      NoFraction(y);
      PartsRead(s, y, [], y, e, x, negative);
      assert s + [] == s;
    } else {
      var first, rest := s[..1], s[1..];
      PointRead(first, rest, y, e, x, negative);
      assert first + rest == s;
    }
  }

  lemma {:induction false} ExponentialReads(s: JsonNumbers.Significand, n: int, x: Text, negative: bool)
    requires Ends(x)
    ensures ReadMagnitude(JsonNumbers.Mantissa(s) + [JsonNumbers.EXPONENT] + JsonNumbers.SignedExponent(n - 1) + x,
                          negative)
            == Some((JsonNumbers.Scaled(negative, s, n), x))
  {
    hide ReadMagnitude, ReadExponent, JsonNumbers.SignedExponent, JsonNumbers.Mantissa;
    var y := [JsonNumbers.EXPONENT] + JsonNumbers.SignedExponent(n - 1) + x;
    ExponentReads(n - 1, x);
    MantissaReads(s, y, n - 1, x, negative);
    assert JsonNumbers.Mantissa(s) + [JsonNumbers.EXPONENT] + JsonNumbers.SignedExponent(n - 1) + x
           == JsonNumbers.Mantissa(s) + y;
  }

  /** A printed number is read as the number it was, zero without its sign. */
  lemma {:induction false} NumberReads(a: JsonNumbers.Number, x: Text)
    requires Ends(x)
    ensures var r := ReadNumber(JsonNumbers.Print(a) + x);
            r.Some? && r.value.1 == x && JsonNumbers.Equal(r.value.0, a)
  {
    hide ReadMagnitude, JsonNumbers.Positional;
    var t := JsonNumbers.Print(a) + x;
    match a
    case Zero(_) =>
      ZeroReads(x);
      assert t[0] == ZERO;
    case Scaled(negative, s, n) =>
      PositionalReads(s, n, x, negative);
      JsonNumbers.PositionalShape(s, n);
      if negative {
        assert t[1..] == JsonNumbers.Positional(s, n) + x;
      } else {
        assert t == JsonNumbers.Positional(s, n) + x;
      }
  }

  lemma {:induction false} ZeroReads(x: Text)
    requires Ends(x)
    ensures ReadMagnitude([ZERO] + x, false) == Some((JsonNumbers.Zero(false), x))
  {
    hide ReadFraction, ReadExponent;
    NoFraction(x);
    NoExponent(x);
    PartsRead([ZERO], x, [], x, 0, x, false);
    assert [ZERO] + [] == [ZERO];
    assert Scale(false, [ZERO], 1) == Scale(false, [], 0);
  }

  // ------------------------------------------------------------------ whole values read back

  /** UTF-16 code unit order: a proper prefix, or the smaller unit where the texts first differ. */
  ghost predicate Precedes(a: Text, b: Text) {
    exists n: nat ::
      n <= |a| && n <= |b| && a[..n] == b[..n] && (n == |a| < |b| || (n < |a| && n < |b| && a[n] < b[n]))
  }

  lemma {:induction false} BeforeIsPrecedes(a: Text, b: Text)
    requires Before(a, b)
    ensures Precedes(a, b)
  {
    if a == [] || a[0] < b[0] {
      assert a[..0] == b[..0];
    } else {
      BeforeIsPrecedes(a[1..], b[1..]);
      var n: nat :| n <= |a[1..]| && n <= |b[1..]| && a[1..][..n] == b[1..][..n]
                    && (n == |a[1..]| < |b[1..]| || (n < |a[1..]| && n < |b[1..]| && a[1..][n] < b[1..][n]));
      assert a[..n + 1] == [a[0]] + a[1..][..n] && b[..n + 1] == [b[0]] + b[1..][..n];
    }
  }

  /** The keys of every object in the value stand in ascending order. */
  ghost predicate KeysAscend(v: Json) {
    match v
    case Arr(items) => forall k | 0 <= k < |items| :: KeysAscend(items[k])
    case Obj(fields) =>
      && (forall j, k | 0 <= j < k < |fields| :: Precedes(fields[j].key, fields[k].key))
      && forall k | 0 <= k < |fields| :: KeysAscend(fields[k].value)
    case _ => true
  }

  lemma {:induction false} NothingToSkip(t: Text)
    requires t == [] || !IsSpace(t[0])
    ensures Skip(t) == t
  {
  }

  lemma {:induction false} EndsIsNoSpace(x: Text)
    requires Ends(x)
    ensures Skip(x) == x
  {
  }

  lemma {:induction false} LiteralReads(v: Json, x: Text)
    requires v.Null? || v.Bool?
    ensures ReadValue(Print(v) + x) == Some((v, x))
  {
    hide ReadChars, ReadItems, ReadFields, ReadNumber;
    var t := Print(v) + x;
    NothingToSkip(t);
    assert t[..|Print(v)|] == Print(v) && t[|Print(v)|..] == x;
    match v
    case Null => assert Begins(t, [0x6E, 0x75, 0x6C, 0x6C]);
    case Bool(b) =>
      assert t[0] == if b then 0x74 else 0x66;
      assert Begins(t, if b then [0x74, 0x72, 0x75, 0x65] else [0x66, 0x61, 0x6C, 0x73, 0x65]);
  }

  lemma {:induction false} StringReads(s: Text, x: Text)
    ensures ReadValue(Quote(s) + x) == Some((Str(s), x))
  {
    hide ReadChars, ReadItems, ReadFields, ReadNumber, Quote;
    QuoteReads(s, x);
    NothingToSkip(Quote(s) + x);
  }

  lemma {:induction false} NumberValueReads(a: JsonNumbers.Number, x: Text) returns (b: JsonNumbers.Number)
    requires Ends(x)
    ensures ReadValue(JsonNumbers.Print(a) + x) == Some((Num(b), x)) && JsonNumbers.Equal(a, b)
  {
    hide ReadChars, ReadItems, ReadFields, ReadNumber, JsonNumbers.Print;
    var t := JsonNumbers.Print(a) + x;
    JsonNumbers.PrintShape(a);
    assert t[0] == JsonNumbers.Print(a)[0];
    NothingToSkip(t);
    NumberReads(a, x);
    b := ReadNumber(t).value.0;
  }

  /** A bracket, then whatever the rest is read as. */
  lemma {:induction false} ArrayOpens(inside: Text, x: Text, items: seq<Json>)
    requires inside != [] && !IsSpace(inside[0]) && inside[0] != CLOSE_ARRAY && ReadItems(inside) == Some((items, x))
    ensures ReadValue([OPEN_ARRAY] + inside) == Some((Arr(items), x))
  {
    hide ReadChars, ReadItems, ReadFields, ReadNumber;
    var t := [OPEN_ARRAY] + inside;
    NothingToSkip(t);
    NothingToSkip(inside);
    assert t[1..] == inside;
  }

  lemma {:induction false} ObjectOpens(inside: Text, x: Text, fields: seq<Field>)
    requires inside != [] && !IsSpace(inside[0]) && inside[0] != CLOSE_OBJECT && ReadFields(inside) == Some((fields, x))
    ensures ReadValue([OPEN_OBJECT] + inside) == Some((Obj(fields), x))
  {
    hide ReadChars, ReadItems, ReadFields, ReadNumber;
    var t := [OPEN_OBJECT] + inside;
    NothingToSkip(t);
    NothingToSkip(inside);
    assert t[1..] == inside;
  }

  lemma {:induction false} EmptyReads(x: Text)
    ensures ReadValue([OPEN_ARRAY, CLOSE_ARRAY] + x) == Some((Arr([]), x))
    ensures ReadValue([OPEN_OBJECT, CLOSE_OBJECT] + x) == Some((Obj([]), x))
  {
    hide ReadChars, ReadItems, ReadFields, ReadNumber;
    var t, u := [OPEN_ARRAY, CLOSE_ARRAY] + x, [OPEN_OBJECT, CLOSE_OBJECT] + x;
    NothingToSkip(t);
    NothingToSkip(u);
    assert t[1..] == [CLOSE_ARRAY] + x && u[1..] == [CLOSE_OBJECT] + x;
    NothingToSkip(t[1..]);
    NothingToSkip(u[1..]);
    assert t[1..][1..] == x && u[1..][1..] == x;
  }

  lemma {:induction false} BeginsWith(t: Text)
    requires t != []
    ensures forall u :: Begins(t, [u]) <==> t[0] == u
  {
    forall u ensures Begins(t, [u]) <==> t[0] == u {
      assert t[..1] == [t[0]];
    }
  }

  /** One item and what follows it: a closing bracket, or a comma and more. */
  lemma {:induction false} ItemReads(t: Text, w: Json, rest: Text, x: Text, more: seq<Json>)
    requires ReadValue(t) == Some((w, rest))
    requires (rest == [CLOSE_ARRAY] + x && more == [])
             || (rest != [] && rest[0] == COMMA && ReadItems(rest[1..]) == Some((more, x)))
    ensures ReadItems(t) == Some(([w] + more, x))
  {
    hide ReadValue, Begins;
    NothingToSkip(rest);
    BeginsWith(rest);
    assert [w] + [] == [w];
    if rest[0] != COMMA { assert rest[1..] == x; }
  }

  lemma {:induction false} RestEnds(parts: seq<Text>, close: Unit, x: Text)
    requires parts != [] && (close == CLOSE_ARRAY || close == CLOSE_OBJECT)
    ensures Ends(Rest(parts, close, x)) && Rest(parts, close, x) != []
    ensures |parts| == 1 ==> Rest(parts, close, x) == [close] + x
    ensures |parts| > 1 ==>
              Rest(parts, close, x)[0] == COMMA && Rest(parts, close, x)[1..] == Join(parts[1..]) + [close] + x
  {
    hide Join;
  }

  /** Canonical text is read as the value it was printed for, in canonical key order, up to where it ends. */
  lemma {:induction false} ReadsBack(v: Json, x: Text) returns (w: Json)
    requires Plain(v) && Ends(x)
    ensures ReadValue(Print(v) + x) == Some((w, x)) && Same(v, w) && KeysAscend(w)
    decreases v, 1, 0
  {
    hide ReadValue, ReadItems, ReadFields, Join, PrintItems, Members, Sorted, PrintAll, Quote, JsonNumbers.Print;
    match v
    case Null => w := v; LiteralReads(v, x);
    case Bool(_) => w := v; LiteralReads(v, x);
    case Str(s) => w := v; StringReads(s, x);
    case Num(a) =>
      PrintsNumber(v);
      var b := NumberValueReads(a, x);
      w := Num(b);
    case Arr(items) => w := ArrayReadsBack(v, x);
    case Obj(fields) => w := ObjectReadsBack(v, x);
  }

  lemma {:induction false} ItemCount(v: Json)
    requires v.Arr?
    ensures |PrintItems(v)| == |v.items| && forall k | 0 <= k < |v.items| :: PrintItems(v)[k] == Print(v.items[k])
  {
  }

  lemma {:induction false} StartsWithoutSpace(v: Json, x: Text)
    ensures Print(v) + x != [] && !IsSpace((Print(v) + x)[0]) && (Print(v) + x)[0] == Print(v)[0]
  {
    hide Print;
    PrintStarts(v);
  }

  lemma {:induction false} ItemsStart(v: Json, x: Text)
    requires v.Arr? && v.items != []
    ensures Inside(v, x) != [] && !IsSpace(Inside(v, x)[0]) && Inside(v, x)[0] != CLOSE_ARRAY
  {
    hide Join, PrintItems, Print;
    var parts := PrintItems(v);
    ItemCount(v);
    PrintStarts(v.items[0]);
    EmptyJoin(parts, CLOSE_ARRAY, x);
    StartsWithoutSpace(v.items[0], Rest(parts, CLOSE_ARRAY, x));
    JoinSplits(parts, CLOSE_ARRAY, x);
  }

  lemma {:induction false} ItemsAreSame(v: Json, ws: seq<Json>)
    requires v.Arr? && |ws| == |v.items|
    requires forall k | 0 <= k < |ws| :: Same(v.items[k], ws[k]) && KeysAscend(ws[k])
    ensures Same(v, Arr(ws)) && KeysAscend(Arr(ws))
  {
  }

  lemma {:induction false} ArrayReadsBack(v: Json, x: Text) returns (w: Json)
    requires v.Arr? && Plain(v) && Ends(x)
    ensures ReadValue(Print(v) + x) == Some((w, x)) && Same(v, w) && KeysAscend(w)
    decreases v, 0, |v.items| + 1
  {
    hide ReadValue, ReadItems, Join, PrintItems, Print, Same, KeysAscend, Ends;
    ItemCount(v);
    Opened(v, x);
    PrintStarts(v);
    assert Print(v) + x == [OPEN_ARRAY] + Inside(v, x);
    if v.items == [] {
      EmptyReads(x);
      NothingJoined();
      assert PrintItems(v) == [];
      assert [OPEN_ARRAY] + Inside(v, x) == [OPEN_ARRAY, CLOSE_ARRAY] + x;
      w := Arr([]);
      ItemsAreSame(v, []);
    } else {
      var ws := ItemsReadBack(v, 0, x);
      assert PrintItems(v)[0..] == PrintItems(v);
      ItemsStart(v, x);
      ArrayOpens(Inside(v, x), x, ws);
      ItemsAreSame(v, ws);
      w := Arr(ws);
    }
  }

  lemma {:induction false} NothingJoined()
    ensures Join([]) == []
  {
  }

  lemma {:induction false} ItemsReadBack(v: Json, i: nat, x: Text) returns (ws: seq<Json>)
    requires v.Arr? && Plain(v) && i < |v.items| == |PrintItems(v)|
    ensures ReadItems(Join(PrintItems(v)[i..]) + [CLOSE_ARRAY] + x) == Some((ws, x))
    ensures |ws| == |v.items| - i && forall k | 0 <= k < |ws| :: Same(v.items[i + k], ws[k]) && KeysAscend(ws[k])
    decreases v, 0, |v.items| - i
  {
    hide ReadValue, ReadItems, Join, PrintItems, Print, Same, KeysAscend;
    ItemCount(v);
    var parts := PrintItems(v)[i..];
    var rest := Rest(parts, CLOSE_ARRAY, x);
    JoinSplits(parts, CLOSE_ARRAY, x);
    RestEnds(parts, CLOSE_ARRAY, x);
    var w := ReadsBack(v.items[i], rest);
    var more: seq<Json> := [];
    if |parts| > 1 {
      assert parts[1..] == PrintItems(v)[i + 1..];
      more := ItemsReadBack(v, i + 1, x);
    }
    ItemReads(parts[0] + rest, w, rest, x, more);
    ws := [w] + more;
  }

  lemma {:induction false} FieldReads(key: Text, t: Text, w: Json, rest: Text, x: Text, more: seq<Field>)
    requires ReadValue(t) == Some((w, rest))
    requires (rest == [CLOSE_OBJECT] + x && more == [])
             || (rest != [] && rest[0] == COMMA && ReadFields(rest[1..]) == Some((more, x)))
    ensures ReadFields(Quote(key) + [COLON] + t) == Some(([Field(key, w)] + more, x))
  {
    hide ReadValue, ReadChars, Quote, Begins;
    var u := Quote(key) + [COLON] + t;
    assert u == Quote(key) + ([COLON] + t);
    QuoteReads(key, [COLON] + t);
    NothingToSkip(u);
    NothingToSkip([COLON] + t);
    assert ([COLON] + t)[1..] == t;
    NothingToSkip(rest);
    BeginsWith(u);
    BeginsWith([COLON] + t);
    BeginsWith(rest);
    assert [Field(key, w)] + [] == [Field(key, w)];
    if rest[0] != COMMA { assert rest[1..] == x; }
  }

  /** The fields read are those of the object, one for each member. */
  ghost predicate FieldsOf(v: Json, ms: seq<Member>, gs: seq<Field>)
    requires v.Obj?
  {
    && |gs| == |ms| && (forall k | 0 <= k < |gs| :: gs[k].key == ms[k].key && KeysAscend(gs[k].value))
    && forall i, k | 0 <= i < |v.fields| && 0 <= k < |gs| && v.fields[i].key == gs[k].key ::
         Same(v.fields[i].value, gs[k].value)
  }

  lemma {:induction false} FieldsReadBack(v: Json, ms: seq<Member>, x: Text) returns (gs: seq<Field>)
    requires v.Obj? && Plain(v) && ms != [] && MembersOf(v, ms)
    ensures ReadFields(Join(PrintAll(ms)) + [CLOSE_OBJECT] + x) == Some((gs, x)) && FieldsOf(v, ms, gs)
    decreases v, 0, |ms|
  {
    hide ReadValue, ReadFields, Join, Members, Print, Same, KeysAscend, Quote;
    var parts := PrintAll(ms);
    var rest := Rest(parts, CLOSE_OBJECT, x);
    JoinSplits(parts, CLOSE_OBJECT, x);
    RestEnds(parts, CLOSE_OBJECT, x);
    assert ms[0] in ms;
    var i := MemberIsField(v, ms[0]);
    var w := ReadsBack(v.fields[i].value, rest);
    var more: seq<Field> := [];
    if |ms| > 1 {
      assert parts[1..] == PrintAll(ms[1..]);
      more := FieldsReadBack(v, ms[1..], x);
    }
    FieldReads(ms[0].key, ms[0].value + rest, w, rest, x, more);
    assert parts[0] + rest == Quote(ms[0].key) + [COLON] + (ms[0].value + rest);
    gs := [Field(ms[0].key, w)] + more;
  }

  lemma {:induction false} MemberIsField(v: Json, m: Member) returns (i: nat)
    requires v.Obj? && m in Members(v)
    ensures i < |v.fields| && m.key == v.fields[i].key && m.value == Print(v.fields[i].value)
  {
    hide Print;
    i :| 0 <= i < |v.fields| && Members(v)[i] == m;
  }

  lemma {:induction false} NothingPrinted()
    ensures PrintAll([]) == []
  {
  }

  lemma {:induction false} SortedCount(ms: seq<Member>)
    ensures |Sorted(ms)| == |ms|
  {
    if ms != [] {
      SortedCount(ms[1..]);
      PlaceCount(ms[0], Sorted(ms[1..]));
    }
  }

  lemma {:induction false} PlaceCount(m: Member, ms: seq<Member>)
    ensures |Place(m, ms)| == |ms| + 1
  {
    if ms != [] && !Before(m.key, ms[0].key) { PlaceCount(m, ms[1..]); }
  }

  lemma {:induction false} MemberCount(v: Json)
    requires v.Obj? && Plain(v)
    ensures |Sorted(Members(v))| == |v.fields| && |Members(v)| == |v.fields| && DistinctKeys(Members(v))
    ensures forall i | 0 <= i < |v.fields| :: Members(v)[i].key == v.fields[i].key
  {
    hide Sorted;
    SortedCount(Members(v));
  }

  lemma {:induction false} MembersStart(ms: seq<Member>, x: Text)
    requires ms != []
    ensures var t := Join(PrintAll(ms)) + [CLOSE_OBJECT] + x; t != [] && t[0] == QUOTE
  {
    hide Join;
    JoinSplits(PrintAll(ms), CLOSE_OBJECT, x);
    assert PrintAll(ms)[0][0] == QUOTE;
  }

  lemma {:induction false} FieldsAreSame(v: Json, gs: seq<Field>)
    requires v.Obj? && Plain(v) && FieldsOf(v, Sorted(Members(v)), gs)
    ensures Same(v, Obj(gs)) && KeysAscend(Obj(gs))
  {
    hide Sorted, Members, Precedes, Before;
    var ms, fs := Sorted(Members(v)), v.fields;
    SortedMembers(Members(v));
    MemberCount(v);
    forall k ensures HasKey(fs, k) <==> HasKey(gs, k) {
      if i :| 0 <= i < |fs| && fs[i].key == k {
        assert Members(v)[i] in ms;
        var j :| 0 <= j < |ms| && ms[j] == Members(v)[i];
        assert gs[j].key == k;
      }
      if j :| 0 <= j < |gs| && gs[j].key == k {
        assert ms[j] in Members(v);
        var i :| 0 <= i < |fs| && Members(v)[i] == ms[j];
        assert fs[i].key == k;
      }
    }
    forall j, k | 0 <= j < k < |gs| ensures Precedes(gs[j].key, gs[k].key) {
      assert Before(ms[j].key, ms[k].key);
      BeforeIsPrecedes(gs[j].key, gs[k].key);
    }
  }

  lemma {:induction false} ObjectReadsBack(v: Json, x: Text) returns (w: Json)
    requires v.Obj? && Plain(v) && Ends(x)
    ensures ReadValue(Print(v) + x) == Some((w, x)) && Same(v, w) && KeysAscend(w)
    decreases v, 0, |v.fields| + 1
  {
    hide ReadValue, ReadFields, Join, Members, Sorted, Quote, PrintAll, FieldsOf, Print;
    var ms := Sorted(Members(v));
    SortedMembers(Members(v));
    MemberCount(v);
    Opened(v, x);
    PrintStarts(v);
    assert Print(v) + x == [OPEN_OBJECT] + Inside(v, x);
    if ms == [] {
      EmptyReads(x);
      NothingJoined();
      NothingPrinted();
      assert [OPEN_OBJECT] + Inside(v, x) == [OPEN_OBJECT, CLOSE_OBJECT] + x;
      w := Obj([]);
    } else {
      var gs := FieldsReadBack(v, ms, x);
      MembersStart(ms, x);
      ObjectOpens(Inside(v, x), x, gs);
      FieldsAreSame(v, gs);
      w := Obj(gs);
    }
  }

  /**
   Canonical text is JSON: it is read, to its end, as the value it was printed for, up to the order of
   object keys and the sign of zero; and the keys of every object stand in it in ascending order.
   */
  lemma {:induction false} CanonicalTextReadsBack(v: Json) returns (w: Json)
    requires Plain(v)
    ensures ReadValue(Print(v)) == Some((w, [])) && Same(v, w) && KeysAscend(w)
  {
    hide ReadValue, Print;
    w := ReadsBack(v, []);
    assert Print(v) + [] == Print(v);
  }
}
