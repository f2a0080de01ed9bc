/**
 The byte-level check of ECDSA signatures (apps/api/src/device-proof/crypto.ts): DER SEQUENCE of
 two INTEGERs, sections 8.3 and 10.1 of ITU-T X.690.
 */
module EcdsaDer {

  newtype Byte = b: int | 0 <= b < 256

  type Bytes = seq<Byte>

  const SEQUENCE_TAG: Byte := 0x30
  const INTEGER_TAG: Byte := 0x02
  const MAX_INTEGER_BYTES := 33

  function Pow256(n: nat): (r: nat)
    ensures r >= 1
  {
    if n == 0 then 1 else 256 * Pow256(n - 1)
  }

  /** 2^263: 33 bytes whose top bit is clear. */
  const LIMIT := 128 * Pow256(MAX_INTEGER_BYTES - 1)

  // ------------------------------------------------------------------ the encoding

  function ToNat(bytes: Bytes): nat {
    if bytes == [] then 0 else 256 * ToNat(bytes[..|bytes| - 1]) + bytes[|bytes| - 1] as int
  }

  /** The shortest big-endian bytes of `n` (none for zero). */
  function Magnitude(n: nat): Bytes {
    if n == 0 then [] else Magnitude(n / 256) + [(n % 256) as Byte]
  }

  /** Contents of the INTEGER `n`: shortest two's complement form of a non-negative number. */
  function Contents(n: nat): Bytes {
    var m := Magnitude(n);
    if m == [] || m[0] >= 0x80 then [0] + m else m
  }

  function EncodeInteger(n: nat): Bytes
    requires |Contents(n)| < 128
  {
    [INTEGER_TAG, |Contents(n)| as Byte] + Contents(n)
  }

  predicate Fits(n: nat) { |Contents(n)| <= MAX_INTEGER_BYTES }

  function Encode(r: nat, s: nat): Bytes
    requires Fits(r) && Fits(s)
  {
    var body := EncodeInteger(r) + EncodeInteger(s);
    [SEQUENCE_TAG, |body| as Byte] + body
  }

  // ------------------------------------------------------------------ the check

  /** The contents bytes the check accepts: non-negative and no longer than they need to be. */
  predicate Minimal(c: Bytes) {
    && 1 <= |c| <= MAX_INTEGER_BYTES
    && c[0] < 0x80
    && (|c| > 1 && c[0] == 0 ==> c[1] >= 0x80)
  }

  /** Position after the INTEGER starting at `offset`, if one starts there. */
  function AfterInteger(signature: Bytes, offset: nat): int
    requires offset <= |signature|
    ensures AfterInteger(signature, offset) <= |signature|
  {
    if offset + 2 > |signature| || signature[offset] != INTEGER_TAG then -1 else
    var next := offset + 2 + signature[offset + 1] as int;
    if next > |signature| || !Minimal(signature[offset + 2..next]) then -1 else next
  }

  ghost predicate WellFormed(signature: Bytes) {
    && 8 <= |signature| <= 72
    && signature[0] == SEQUENCE_TAG
    && signature[1] as int == |signature| - 2
    && var first := AfterInteger(signature, 2);
       first >= 0 && AfterInteger(signature, first) == |signature|
  }

  /** The check reads bytes past the end as absent, which never compare equal to a tag. */
  method IsStrictEcdsaDer(signature: Bytes) returns (ok: bool)
    ensures ok <==> WellFormed(signature)
    ensures ok <==> exists r: nat, s: nat :: r < LIMIT && s < LIMIT && Fits(r) && Fits(s) && signature == Encode(r, s)
  {
    StrictMeansEncoded(signature);
    if |signature| < 8 || |signature| > 72 || signature[0] != SEQUENCE_TAG {
      return false;
    }
    if signature[1] as int != |signature| - 2 {
      return false;
    }
    var offset := 2;
    for index := 0 to 2
      invariant 2 <= offset <= |signature|
      invariant index == 0 ==> offset == 2
      invariant index == 1 ==> offset == AfterInteger(signature, 2)
      invariant index == 2 ==>
                  AfterInteger(signature, 2) >= 0 && offset == AfterInteger(signature, AfterInteger(signature, 2))
    {
      if offset >= |signature| || signature[offset] != INTEGER_TAG {
        return false;
      }
      if offset + 1 >= |signature| {
        return false;
      }
      var length := signature[offset + 1] as int;
      if length == 0 || length > MAX_INTEGER_BYTES || offset + 2 + length > |signature| {
        return false;
      }
      var first := signature[offset + 2];
      if first >= 0x80 || (length > 1 && first == 0 && signature[offset + 3] < 0x80) {
        return false;
      }
      offset := offset + 2 + length;
    }
    return offset == |signature|;
  }

  // ------------------------------------------------------------------ what it accepts

  lemma {:induction false} MagnitudeRoundTrip(n: nat)
    ensures ToNat(Magnitude(n)) == n
    ensures Magnitude(n) != [] ==> Magnitude(n)[0] != 0
  {
    if n != 0 {
      MagnitudeRoundTrip(n / 256);
      var m := Magnitude(n);
      assert m[..|m| - 1] == Magnitude(n / 256);
    }
  }

  lemma {:induction false} LeadingZero(bytes: Bytes)
    ensures ToNat([0] + bytes) == ToNat(bytes)
  {
    var padded := [0 as Byte] + bytes;
    if bytes == [] {
      assert padded[..0] == [];
    } else {
      assert padded[..|padded| - 1] == [0] + bytes[..|bytes| - 1];
      LeadingZero(bytes[..|bytes| - 1]);
    }
  }

  /** Bytes without a leading zero are the shortest form of their number. */
  lemma {:induction false} MagnitudeOfBytes(bytes: Bytes)
    requires bytes != [] ==> bytes[0] != 0
    ensures Magnitude(ToNat(bytes)) == bytes
    ensures ToNat(bytes) == 0 <==> bytes == []
  {
    if bytes != [] {
      MagnitudeOfBytes(bytes[..|bytes| - 1]);
      assert ToNat(bytes) / 256 == ToNat(bytes[..|bytes| - 1]);
      assert ToNat(bytes) % 256 == bytes[|bytes| - 1] as int;
      assert bytes == bytes[..|bytes| - 1] + [bytes[|bytes| - 1]];
    }
  }

  /** `n < d * 256^k` exactly when `n` has at most `k` bytes, or one more whose first is below `d`. */
  lemma {:induction false} MagnitudeBound(n: nat, d: nat, k: nat)
    requires 1 <= d <= 256
    ensures n < d * Pow256(k) <==>
            |Magnitude(n)| <= k || (|Magnitude(n)| == k + 1 && (Magnitude(n)[0] as int) < d)
    decreases k
  {
    if k == 0 {
      if n != 0 {
        if n < 256 {
          assert Magnitude(n) == Magnitude(0) + [n as Byte];
        } else {
          assert Magnitude(n / 256) != [];
        }
      }
    } else {
      MagnitudeBound(n / 256, d, k - 1);
      var p := Pow256(k - 1);
      assert d * Pow256(k) == 256 * (d * p);
      assert n < 256 * (d * p) <==> n / 256 < d * p;
      if n != 0 {
        assert |Magnitude(n)| == |Magnitude(n / 256)| + 1;
      }
    }
  }

  lemma {:induction false} ContentsRoundTrip(n: nat)
    ensures ToNat(Contents(n)) == n
    ensures Fits(n) <==> n < LIMIT
    ensures Fits(n) ==> Minimal(Contents(n))
  {
    MagnitudeRoundTrip(n);
    LeadingZero(Magnitude(n));
    MagnitudeBound(n, 128, MAX_INTEGER_BYTES - 1);
  }

  lemma {:induction false} MinimalContents(c: Bytes)
    requires Minimal(c)
    ensures Contents(ToNat(c)) == c
  {
    if c[0] == 0 {
      assert c == [0] + c[1..];
      LeadingZero(c[1..]);
      MagnitudeOfBytes(c[1..]);
    } else {
      MagnitudeOfBytes(c);
    }
  }

  /** An encoded integer is found where it stands, and ends where it ends. */
  lemma {:induction false} IntegerStands(before: Bytes, n: nat, after: Bytes)
    requires Fits(n)
    ensures AfterInteger(before + EncodeInteger(n) + after, |before|) == |before| + |EncodeInteger(n)|
  {
    hide Contents, Pow256, ToNat, Minimal;
    ContentsRoundTrip(n);
    var signature, k := before + EncodeInteger(n) + after, |before|;
    assert signature[k] == INTEGER_TAG && signature[k + 1] as int == |Contents(n)|;
    assert signature[k + 2..k + 2 + |Contents(n)|] == Contents(n);
  }

  lemma {:induction false} EncodedIsWellFormed(r: nat, s: nat)
    requires Fits(r) && Fits(s)
    ensures WellFormed(Encode(r, s))
  {
    hide Contents, Pow256, ToNat, Minimal, AfterInteger;
    ContentsRoundTrip(r);
    ContentsRoundTrip(s);
    var signature, head := Encode(r, s), Encode(r, s)[..2];
    assert signature == head + EncodeInteger(r) + EncodeInteger(s);
    IntegerStands(head, r, EncodeInteger(s));
    IntegerStands(head + EncodeInteger(r), s, []);
    assert signature == head + EncodeInteger(r) + EncodeInteger(s) + [];
  }

  /** Accepted signatures decode to the pair they encode. */
  lemma {:induction false} WellFormedIsEncoded(signature: Bytes) returns (r: nat, s: nat)
    requires WellFormed(signature)
    ensures Fits(r) && Fits(s) && signature == Encode(r, s)
    ensures r < LIMIT && s < LIMIT
  {
    hide Contents, ToNat, Pow256;
    var first := AfterInteger(signature, 2);
    var c, d := signature[4..first], signature[first + 2..|signature|];
    r, s := ToNat(c), ToNat(d);
    MinimalContents(c);
    MinimalContents(d);
    ContentsRoundTrip(r);
    ContentsRoundTrip(s);
    assert signature[2..first] == EncodeInteger(r);
    assert signature[first..] == EncodeInteger(s);
    assert signature == signature[..2] + signature[2..first] + signature[first..];
  }

  lemma {:induction false} StrictMeansEncoded(signature: Bytes)
    ensures WellFormed(signature) <==>
            exists r: nat, s: nat :: r < LIMIT && s < LIMIT && Fits(r) && Fits(s) && signature == Encode(r, s)
  {
    if WellFormed(signature) {
      var r, s := WellFormedIsEncoded(signature);
      assert r < LIMIT && s < LIMIT && Fits(r) && Fits(s) && signature == Encode(r, s);
    }
    if r: nat, s: nat :| r < LIMIT && s < LIMIT && Fits(r) && Fits(s) && signature == Encode(r, s) {
      EncodedIsWellFormed(r, s);
    }
  }

  /** The encoding is unambiguous: one signature, one pair. */
  lemma {:induction false} EncodingIsInjective(r: nat, s: nat, r': nat, s': nat)
    requires Fits(r) && Fits(s) && Fits(r') && Fits(s')
    requires Encode(r, s) == Encode(r', s')
    ensures r == r' && s == s'
  {
    hide Contents, ToNat, Pow256;
    var e, e' := Encode(r, s), Encode(r', s');
    var k := |Contents(r)|;
    assert e[3] == k as Byte && e'[3] == |Contents(r')| as Byte;
    assert e[4..4 + k] == Contents(r) && e'[4..4 + k] == Contents(r');
    assert e[6 + k..] == Contents(s) && e'[6 + k..] == Contents(s');
    ContentsRoundTrip(r);
    ContentsRoundTrip(r');
    ContentsRoundTrip(s);
    ContentsRoundTrip(s');
  }
}
