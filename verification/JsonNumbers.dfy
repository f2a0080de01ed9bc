/**
 Finite numbers as JSON text: Number::toString of ECMA-262 (section 6.1.6.1.20). A nonzero number is
 its sign and the shortest decimal digits `s` with the exponent `n` of that section, so that its value
 is 0.s times 10 to the n.
 */
module JsonNumbers {
  import opened Utf16

  const PLUS: Unit := 0x2B
  const DOT: Unit := 0x2E
  const EXPONENT: Unit := 0x65

  predicate IsDigit(u: Unit) { ZERO <= u < ZERO + 10 }

  /** As few digits as possible: neither the first nor the last is zero. */
  predicate Shortest(s: Text) {
    s != [] && (forall k | 0 <= k < |s| :: IsDigit(s[k])) && s[0] != ZERO && s[|s| - 1] != ZERO
  }

  type Significand = s: Text | Shortest(s) witness [ZERO + 1]

  datatype Number = Zero(negative: bool) | Scaled(negative: bool, s: Significand, n: int)

  /** Equal as numbers: the two zeros are one. */
  predicate Equal(x: Number, y: Number) { x == y || (x.Zero? && y.Zero?) }

  // ------------------------------------------------------------------ printing

  function Digits(n: nat): Text {
    (if n < 10 then [] else Digits(n / 10)) + [ZERO + (n % 10) as Unit]
  }

  function Zeros(n: nat): (r: Text)
    ensures |r| == n && forall k | 0 <= k < n :: r[k] == ZERO
  {
    seq(n, _ => ZERO)
  }

  function SignedExponent(e: int): Text { if e >= 0 then [PLUS] + Digits(e) else [MINUS] + Digits(-e) }

  function Mantissa(s: Significand): Text { if |s| == 1 then s else s[..1] + [DOT] + s[1..] }

  /** A positive number with its decimal point where it belongs, or in exponent notation. */
  function Positional(s: Significand, n: int): Text {
    if |s| <= n <= 21 then s + Zeros(n - |s|)
    else if 0 < n <= 21 then s[..n] + [DOT] + s[n..]
    else if -6 < n <= 0 then [ZERO, DOT] + Zeros(-n) + s
    else Mantissa(s) + [EXPONENT] + SignedExponent(n - 1)
  }

  function Print(x: Number): Text {
    match x
    case Zero(_) => [ZERO]
    case Scaled(negative, s, n) => (if negative then [MINUS] else []) + Positional(s, n)
  }

  /** 12.5, -700 and 0.0012. */
  lemma {:induction false} PrintedPlainly()
    ensures Print(Scaled(false, [0x31, 0x32, 0x35], 2)) == [0x31, 0x32, DOT, 0x35]
    ensures Print(Scaled(true, [0x37], 3)) == [MINUS, 0x37, ZERO, ZERO]
    ensures Print(Scaled(false, [0x31, 0x32], -2)) == [ZERO, DOT, ZERO, ZERO, 0x31, 0x32]
  {
    hide Digits, Mantissa, SignedExponent;
    assert Zeros(2) == [ZERO, ZERO];
    assert Positional([0x31, 0x32, 0x35], 2) == [0x31, 0x32, DOT, 0x35];
    assert Positional([0x37], 3) == [0x37, ZERO, ZERO];
    assert Positional([0x31, 0x32], -2) == [ZERO, DOT, ZERO, ZERO, 0x31, 0x32];
  }

  lemma {:induction false} OneMoreDigit(n: nat)
    ensures Digits(n) == (if n < 10 then [] else Digits(n / 10)) + [ZERO + (n % 10) as Unit]
  {
  }

  /** 1e+21 and 5e-7. */
  lemma {:induction false} PrintedWithExponent()
    ensures Print(Scaled(false, [0x31], 22)) == [0x31, EXPONENT, PLUS, 0x32, 0x31]
    ensures Print(Scaled(false, [0x35], -6)) == [0x35, EXPONENT, MINUS, 0x37]
  {
    hide Digits, Zeros;
    OneMoreDigit(7);
    OneMoreDigit(2);
    OneMoreDigit(21);
    assert Digits(21) == [0x32, 0x31];
    assert SignedExponent(21) == [PLUS, 0x32, 0x31] && SignedExponent(-7) == [MINUS, 0x37];
  }

  // ------------------------------------------------------------------ numbers decode uniquely

  predicate Numeric(u: Unit) { IsDigit(u) || u == MINUS || u == PLUS || u == DOT || u == EXPONENT }

  lemma {:induction false} DigitsAreDigits(n: nat)
    ensures Digits(n) != [] && forall k | 0 <= k < |Digits(n)| :: IsDigit(Digits(n)[k])
  {
    if n >= 10 {
      DigitsAreDigits(n / 10);
    }
  }

  lemma {:induction false} DigitsInjective(n: nat, m: nat)
    requires Digits(n) == Digits(m)
    ensures n == m
  {
    var a, b := Digits(n), Digits(m);
    assert a[|a| - 1] == b[|b| - 1];
    assert n % 10 == m % 10;
    if n >= 10 { DigitsAreDigits(n / 10); assert a[..|a| - 1] == Digits(n / 10); }
    if m >= 10 { DigitsAreDigits(m / 10); assert b[..|b| - 1] == Digits(m / 10); }
    if n >= 10 && m >= 10 {
      DigitsInjective(n / 10, m / 10);
    }
  }

  predicate AllNumeric(t: Text) { forall k | 0 <= k < |t| :: Numeric(t[k]) }

  lemma {:induction false} NumericSum(a: Text, b: Text)
    requires AllNumeric(a) && AllNumeric(b)
    ensures AllNumeric(a + b)
  {
  }

  lemma {:induction false} ExponentIsNumeric(e: int)
    ensures AllNumeric(SignedExponent(e))
  {
    DigitsAreDigits(if e >= 0 then e else -e);
  }

  lemma {:induction false} PartsAreNumeric(s: Significand, n: nat)
    ensures AllNumeric(s) && AllNumeric(Mantissa(s)) && AllNumeric(Zeros(n))
    ensures n <= |s| ==> AllNumeric(s[..n]) && AllNumeric(s[n..])
    ensures IsDigit(s[0]) && Mantissa(s) != [] && Mantissa(s)[0] == s[0]
  {
  }

  lemma {:induction false} PositionalShape(s: Significand, n: int)
    ensures Positional(s, n) != [] && IsDigit(Positional(s, n)[0]) && AllNumeric(Positional(s, n))
  {
    hide AllNumeric, Mantissa, SignedExponent;
    PartsAreNumeric(s, if n >= 0 then n else -n);
    assert AllNumeric([ZERO, DOT]) && AllNumeric([DOT]) && AllNumeric([EXPONENT]) by { TokensAreNumeric(); }
    if |s| <= n <= 21 {
      PartsAreNumeric(s, n - |s|);
      NumericSum(s, Zeros(n - |s|));
    } else if 0 < n <= 21 {
      NumericSum(s[..n], [DOT]);
      NumericSum(s[..n] + [DOT], s[n..]);
    } else if -6 < n <= 0 {
      NumericSum([ZERO, DOT], Zeros(-n));
      NumericSum([ZERO, DOT] + Zeros(-n), s);
    } else {
      ExponentIsNumeric(n - 1);
      NumericSum(Mantissa(s), [EXPONENT]);
      NumericSum(Mantissa(s) + [EXPONENT], SignedExponent(n - 1));
    }
  }

  lemma {:induction false} TokensAreNumeric()
    ensures AllNumeric([ZERO, DOT]) && AllNumeric([DOT]) && AllNumeric([EXPONENT])
  {
  }

  lemma {:induction false} PrintShape(x: Number)
    ensures Print(x) != [] && (Print(x)[0] == MINUS || IsDigit(Print(x)[0])) && AllNumeric(Print(x))
  {
    hide Positional;
    if x.Scaled? { PositionalShape(x.s, x.n); }
  }

  lemma {:induction false} OccursNoLater(a: Text, x: Text, b: Text, y: Text, u: Unit)
    requires a + [u] + x == b + [u] + y && u !in b
    ensures |b| <= |a|
  {
    var w := a + [u] + x;
    assert w[|a|] == u;
    assert w == b + [u] + y;
    assert forall k | 0 <= k < |b| :: w[k] == b[k] && b[k] in b;
  }

  /** Where a unit first occurs determines what stands before and behind it. */
  lemma {:induction false} SplitAtFirst(a: Text, x: Text, b: Text, y: Text, u: Unit)
    requires a + [u] + x == b + [u] + y && u !in a && u !in b
    ensures a == b && x == y
  {
    var l, r := a + [u] + x, b + [u] + y;
    OccursNoLater(a, x, b, y, u);
    OccursNoLater(b, y, a, x, u);
    assert a == l[..|a|] && b == r[..|b|] && x == l[|a| + 1..] && y == r[|b| + 1..];
  }

  lemma {:induction false} MantissaInjective(s: Significand, t: Significand)
    requires Mantissa(s) == Mantissa(t)
    ensures s == t
  {
    if |s| > 1 && |t| > 1 {
      SplitAtFirst(s[..1], s[1..], t[..1], t[1..], DOT);
      assert s == s[..1] + s[1..] && t == t[..1] + t[1..];
    } else {
      assert |Mantissa(s)| == |Mantissa(t)|;
    }
  }

  lemma {:induction false} ExponentInjective(e: int, f: int)
    requires SignedExponent(e) == SignedExponent(f)
    ensures e == f
  {
    var a, b := SignedExponent(e), SignedExponent(f);
    assert a[0] == b[0] && a[1..] == b[1..];
    if e >= 0 { DigitsInjective(e, f); } else { DigitsInjective(-e, -f); }
  }

  lemma {:induction false} EndsNoLater(s: Significand, i: nat, t: Significand, j: nat)
    requires s + Zeros(i) == t + Zeros(j)
    ensures |s| <= |t|
  {
    var w := s + Zeros(i);
    assert w[|s| - 1] == s[|s| - 1] != ZERO;
    assert w == t + Zeros(j);
    assert forall k | |t| <= k < |w| :: w[k] == Zeros(j)[k - |t|] == ZERO;
  }

  lemma {:induction false} TrailingZeros(s: Significand, i: nat, t: Significand, j: nat)
    requires s + Zeros(i) == t + Zeros(j)
    ensures s == t
  {
    EndsNoLater(s, i, t, j);
    EndsNoLater(t, j, s, i);
    assert s == (s + Zeros(i))[..|s|] && t == (t + Zeros(j))[..|t|];
  }

  lemma {:induction false} StartsNoLater(i: nat, s: Significand, j: nat, t: Significand)
    requires Zeros(i) + s == Zeros(j) + t
    ensures j <= i
  {
    var w := Zeros(i) + s;
    assert w[i] == s[0] != ZERO;
    assert w == Zeros(j) + t;
    assert forall k | 0 <= k < j :: w[k] == Zeros(j)[k] == ZERO;
  }

  lemma {:induction false} LeadingZeros(i: nat, s: Significand, j: nat, t: Significand)
    requires Zeros(i) + s == Zeros(j) + t
    ensures i == j && s == t
  {
    StartsNoLater(i, s, j, t);
    StartsNoLater(j, t, i, s);
    assert s == (Zeros(i) + s)[i..] && t == (Zeros(j) + t)[j..];
  }

  // ------------------------------------------------------------------ the four forms are told apart

  datatype Form = Whole | Pointed | Small | Exponential

  function FormOf(s: Significand, n: int): Form {
    if |s| <= n <= 21 then Whole else if 0 < n <= 21 then Pointed else if -6 < n <= 0 then Small else Exponential
  }

  /** By the letter, by the point, and by a leading zero. */
  lemma {:induction false} FormsShow(s: Significand, n: int)
    ensures var p := Positional(s, n);
            && (FormOf(s, n).Exponential? <==> EXPONENT in p)
            && (FormOf(s, n).Whole? <==> EXPONENT !in p && DOT !in p)
            && (FormOf(s, n).Small? ==> p[0] == ZERO) && (FormOf(s, n).Pointed? ==> p[0] != ZERO)
  {
    var p, e := Positional(s, n), n - 1;
    DigitsAreDigits(if e >= 0 then e else -e);
    match FormOf(s, n)
    case Whole =>
    case Pointed => assert p[n] == DOT;
    case Small => assert p[1] == DOT;
    case Exponential => assert p[|Mantissa(s)|] == EXPONENT;
  }

  lemma {:induction false} WholeInjective(s: Significand, n: int, t: Significand, m: int)
    requires FormOf(s, n).Whole? && FormOf(t, m).Whole? && Positional(s, n) == Positional(t, m)
    ensures s == t && n == m
  {
    TrailingZeros(s, n - |s|, t, m - |t|);
  }

  lemma {:induction false} PointedInjective(s: Significand, n: int, t: Significand, m: int)
    requires FormOf(s, n).Pointed? && FormOf(t, m).Pointed? && Positional(s, n) == Positional(t, m)
    ensures s == t && n == m
  {
    SplitAtFirst(s[..n], s[n..], t[..m], t[m..], DOT);
    assert s == s[..n] + s[n..] && t == t[..m] + t[m..];
  }

  lemma {:induction false} SmallInjective(s: Significand, n: int, t: Significand, m: int)
    requires FormOf(s, n).Small? && FormOf(t, m).Small? && Positional(s, n) == Positional(t, m)
    ensures s == t && n == m
  {
    assert Zeros(-n) + s == Positional(s, n)[2..] && Zeros(-m) + t == Positional(t, m)[2..];
    LeadingZeros(-n, s, -m, t);
  }

  lemma {:induction false} NoLetter(s: Significand)
    ensures EXPONENT !in Mantissa(s)
  {
  }

  lemma {:induction false} ExponentialInjective(s: Significand, n: int, t: Significand, m: int)
    requires FormOf(s, n).Exponential? && FormOf(t, m).Exponential? && Positional(s, n) == Positional(t, m)
    ensures s == t && n == m
  {
    hide Mantissa, SignedExponent;
    NoLetter(s);
    NoLetter(t);
    SplitAtFirst(Mantissa(s), SignedExponent(n - 1), Mantissa(t), SignedExponent(m - 1), EXPONENT);
    MantissaInjective(s, t);
    ExponentInjective(n - 1, m - 1);
  }

  lemma {:induction false} PositionalInjective(s: Significand, n: int, t: Significand, m: int)
    requires Positional(s, n) == Positional(t, m)
    ensures s == t && n == m
  {
    hide Positional, FormOf;
    FormsShow(s, n);
    FormsShow(t, m);
    assert FormOf(s, n) == FormOf(t, m);
    match FormOf(s, n)
    case Whole => WholeInjective(s, n, t, m);
    case Pointed => PointedInjective(s, n, t, m);
    case Small => SmallInjective(s, n, t, m);
    case Exponential => ExponentialInjective(s, n, t, m);
  }

  /** A lone zero is the text of no other number. */
  lemma {:induction false} NothingElseIsZero(s: Significand, n: int)
    ensures Positional(s, n) != [ZERO]
  {
    FormsShow(s, n);
    assert EXPONENT !in [ZERO] && DOT !in [ZERO];
    if FormOf(s, n).Whole? { assert Positional(s, n)[0] == s[0]; }
  }

  lemma {:induction false} UnsignedPart(x: Number)
    requires x.Scaled?
    ensures Print(x)[if x.negative then 1 else 0..] == Positional(x.s, x.n)
  {
    hide Positional;
  }

  /** Numbers print alike exactly when they are equal. */
  lemma {:induction false} PrintInjective(x: Number, y: Number)
    ensures Print(x) == Print(y) <==> Equal(x, y)
  {
    hide Positional;
    if Print(x) == Print(y) {
      if x.Scaled? { PositionalShape(x.s, x.n); NothingElseIsZero(x.s, x.n); }
      if y.Scaled? { PositionalShape(y.s, y.n); NothingElseIsZero(y.s, y.n); }
      if x.Scaled? && y.Scaled? {
        assert x.negative <==> Print(x)[0] == MINUS;
        assert y.negative <==> Print(y)[0] == MINUS;
        UnsignedPart(x);
        UnsignedPart(y);
        PositionalInjective(x.s, x.n, y.s, y.n);
      }
    }
  }

  lemma {:induction false} NoLonger(p: Text, x: Text, q: Text, y: Text)
    requires p + x == q + y && AllNumeric(p) && (y == [] || !Numeric(y[0]))
    ensures |p| <= |q|
  {
    var w := p + x;
    assert forall k | 0 <= k < |p| :: Numeric(w[k]);
    assert y != [] ==> |q| < |w| && w[|q|] == y[0];
  }

  /** A printed number, followed by nothing that could go on with it, can be told from what follows. */
  lemma {:induction false} PrintPrefix(a: Number, x: Text, b: Number, y: Text)
    requires Print(a) + x == Print(b) + y
    requires (x == [] || !Numeric(x[0])) && (y == [] || !Numeric(y[0]))
    ensures Equal(a, b) && Print(a) == Print(b) && x == y
  {
    hide Print;
    PrintShape(a);
    PrintShape(b);
    var p, q := Print(a), Print(b);
    NoLonger(p, x, q, y);
    NoLonger(q, y, p, x);
    assert p == (p + x)[..|p|] && q == (q + y)[..|q|] && x == (p + x)[|p|..] && y == (q + y)[|q|..];
    PrintInjective(a, b);
  }
}
