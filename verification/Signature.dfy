/** The signature equation of section 5.1.7 of RFC 8032, and what vl_ed25519_verify decides about
    it. The facts assumed by name are those of EdwardsGroup. */
module Signature {
  import opened Words
  import opened Digits
  import opened LittleEndian
  import opened Modular
  import opened Field
  import opened Curve
  import opened Ladder
  import opened Decode
  import opened AffineCurve
  import opened EdwardsGroup
  import opened RootSearch
  import opened Verify25519
  import Scalar
  import Sha512

  const B: (int, int) := (BASE_X, BASE_Y)

  // ------------------------------------------------------------------ encoding

  /** Two points with the same y have the same x, up to sign. */
  lemma SameSquare(x: int, u: int, y: int)
    requires FieldInverses() && NonSquare() && OnAffine(x, y) && OnAffine(u, y)
    ensures Equal(x, u) || Equal(x, -u)
  {
    OnAffineMeans(x, y);
    OnAffineMeans(u, y);
    DenominatorIsNonzero(y);
    var j := CongElim(P, y * y - x * x, 1 + D * ((x * x) * (y * y)));
    var k := CongElim(P, y * y - u * u, 1 + D * ((u * u) * (y * y)));
    SquaresDiffer(x, u, D, y * y);
    CongIntro(P, (x - u) * (x + u) * (1 + D * (y * y)), 0, k - j);
    NoZeroDivisors((x - u) * (x + u), 1 + D * (y * y));
    NoZeroDivisors(x - u, x + u);
    if Equal(x - u, 0) {
      var n := CongElim(P, x - u, 0);
      CongIntro(P, x, u, n);
    } else {
      var n := CongElim(P, x + u, 0);
      CongIntro(P, x, -u, n);
    }
  }

  lemma SquaresDiffer(x: int, u: int, d: int, yy: int)
    ensures (x - u) * (x + u) * (1 + d * yy)
         == (yy - u * u) - (1 + d * ((u * u) * yy)) - ((yy - x * x) - (1 + d * ((x * x) * yy)))
  {
    assert (x - u) * (x + u) == x * x - u * u;
    Expanded(x * x, u * u, d, yy);
  }

  lemma Expanded(a: int, b: int, d: int, yy: int)
    ensures (a - b) * (1 + d * yy) == (yy - b) - (1 + d * (b * yy)) - ((yy - a) - (1 + d * (a * yy)))
  {
    assert (a - b) * (d * yy) == d * (a * yy) - d * (b * yy);
  }

  /** A point of the curve is determined by its 32-byte encoding. */
  lemma EncodeInjective(a: (int, int), b: (int, int))
    requires FieldInverses() && NonSquare() && IsAffinePoint(a) && IsAffinePoint(b)
    requires Encode(a) == Encode(b)
    ensures a == b
  {
    TopAndRest(a.1, a.0 % 2, b.1, b.0 % 2);
    SameSquare(a.0, b.0, a.1);
    SignDecides(a.0, b.0);
  }

  /** Of two elements equal up to sign, with the same parity. */
  lemma SignDecides(x: int, u: int)
    requires 0 <= x < P && 0 <= u < P && x % 2 == u % 2
    requires Equal(x, u) || Equal(x, -u)
    ensures x == u
  {
    if Equal(x, u) {
      var k := CongElim(P, x, u);
      SmallMultiple(x - u, k);
      SmallMultiple(u - x, -k);
    } else {
      var k := CongElim(P, x, -u);
      SmallMultiple(x + u, k);
    }
  }

  lemma TopAndRest(y: int, s: int, z: int, t: int)
    requires 0 <= y < P && 0 <= z < P && y + (P + 19) * s == z + (P + 19) * t
    requires 0 <= s <= 1 && 0 <= t <= 1
    ensures y == z && s == t
  {
  }

  lemma SmallMultiple(n: int, k: int)
    requires n < 2 * P && n == k * P
    ensures n <= 0 || n == P
  {
    MulMono(2, k, P);
  }

  // ----------------------------------------------------------------------- key

  /** The point A that a key denotes. */
  ghost function KeyOf(key: seq<u8>): (int, int)
    requires KeyPoint(key).Some?
  {
    E().neg(Quotients(KeyPoint(key).value))
  }

  lemma PointOfKey(key: seq<u8>)
    requires |key| == 32 && KeyPoint(key).Some?
    ensures var p := KeyPoint(key).value; Good(p) && p.y == KeyY(key) && Quotients(p) == (p.x, KeyY(key)) && IsAffinePoint((p.x, KeyY(key)))
  {
    KeyPointMeans(key);
    OnAffineMeans(KeyPoint(key).value.x, KeyY(key));
    var p := KeyPoint(key).value;
    KeyPointIsOnCurve(key);
    OneIsNotZero();
    UnitZ(p);
  }

  /** An accepted key is decoded to the point that it encodes: re-encoding the point gives the
      key back. */
  lemma DecodeEncode(key: seq<u8>)
    requires FieldInverses() && NonSquare() && |key| == 32 && DecodeNegated(key).Some?
    ensures IsAffinePoint(KeyOf(key)) && KeyOf(key).0 != 0
    ensures Le(key) == Encode(KeyOf(key))
  {
    var p := KeyPoint(key).value;
    PointOfKey(key);
    NegationIsPoint((p.x, p.y));
    DecodedSign(key);
    SplitKey(key);
    NegatedEncoding(p.x, p.y, KeySign(key));
  }

  lemma NegatedEncoding(x: int, y: int, sign: int)
    requires 0 < x < P && 0 <= sign <= 1 && x % 2 != sign
    ensures (-x) % P != 0 && Encode(((-x) % P, y)) == y + (P + 19) * sign
  {
    DivUnique(P, -x, -1, P - x);
    assert (P - x) % 2 == sign;
  }

  /** The negation of the negation. */
  lemma KeyNegates(key: seq<u8>)
    requires NamedFacts() && |key| == 32 && KeyPoint(key).Some?
    ensures var p := KeyPoint(key).value;
      Good(p) && E().has(Quotients(p)) && E().has(KeyOf(key)) && Quotients(p) == E().neg(KeyOf(key))
  {
    PointOfKey(key);
    CurveLaws();
    var a := Quotients(KeyPoint(key).value);
    assert E().ClosedAt(a, a) && E().NeutralAt(a) && E().CommutativeAt(a, E().neg(a));
    E().NegationIsUnique(a, E().neg(a));
  }

  /** Eight times a point, in extended coordinates. */
  lemma EightHolds(p: Ext)
    requires NamedFacts() && Good(p)
    ensures Holds(Eight(p), 8, p)
  {
    NeutralHolds(p);
    SumHolds(p, 1, p, 1, p);
    var q := EdAdd(p, p);
    SumHolds(q, 2, q, 2, p);
    var r := EdAdd(q, q);
    SumHolds(r, 4, r, 4, p);
  }

  /** What the order check decides: whether eight times the point is the neutral element. */
  lemma LowOrderMeans(p: Ext)
    requires NamedFacts() && Good(p)
    ensures IsLowOrder(p) <==> E().Times(8, Quotients(p)) == E().zero
  {
    EightHolds(p);
    var e := Eight(p);
    AffineIsQuotients(e);
    AffineIsPoint(e);
    NeutralIsGood();
    if IsLowOrder(p) {
      EncodeInjective(Affine(e), (0, 1));
    }
  }

  /** A key that denotes a point is used exactly when the point's order does not divide eight. */
  lemma KeyOrder(key: seq<u8>)
    requires NamedFacts() && |key| == 32 && KeyPoint(key).Some?
    ensures DecodeNegated(key).Some? <==> E().Times(8, KeyOf(key)) != E().zero
  {
    DecodeNegatedMeans(key);
    var p := KeyPoint(key).value;
    KeyNegates(key);
    LowOrderMeans(p);
    TimesOfNegation(8, KeyOf(key));
    CurveLaws();
    E().TimesIsMember(8, KeyOf(key));
    E().NegationIsZero(E().Times(8, KeyOf(key)));
  }

  /** Every encoding of a point of the curve denotes that point. */
  lemma EncodedKey(key: seq<u8>, a: (int, int))
    requires NamedFacts() && |key| == 32 && IsAffinePoint(a) && Le(key) == Encode(a)
    ensures KeyPoint(key).Some? && KeyOf(key) == a
  {
    Unsigned(a.1, a.0 % 2);
    KeyPointComplete(key, a.0);
    PointOfKey(key);
    KeyNegates(key);
    KeyPointSign(key);
    SignOfKey(KeyPoint(key).value.x, a.0, a.1);
  }

  /** The negation of x has the y and the sign of a. */
  lemma SignOfKey(x: int, u: int, y: int)
    requires FieldInverses() && NonSquare() && 0 <= x < P && 0 <= u < P
    requires OnAffine((-x) % P, y) && OnAffine(u, y) && (x == 0 || x % 2 != u % 2)
    ensures (-x) % P == u
  {
    SameSquare((-x) % P, u, y);
    if x == 0 {
      ZeroUpToSign(u);
    } else {
      Complement(x);
      SignDecides((-x) % P, u);
    }
  }

  lemma Complement(x: int)
    requires 0 < x < P
    ensures (-x) % P == P - x && (P - x) % 2 != x % 2
  {
    DivUnique(P, -x, -1, P - x);
  }

  lemma ZeroUpToSign(x: int)
    requires 0 <= x < P && (Equal(0, x) || Equal(0, -x))
    ensures x == 0
  {
    if Equal(0, x) {
      CongIsSameMod(P, 0, x);
    } else {
      var k := CongElim(P, 0, -x);
      SmallMultiple(x, k);
    }
  }

  /** The bytes spell a point of the curve whose order does not divide eight. */
  ghost predicate SpellsKey(key: seq<u8>, a: (int, int))
  {
    IsAffinePoint(a) && Le(key) == Encode(a) && E().Times(8, a) != E().zero
  }

  /** The keys accepted are exactly the encodings of the points whose order does not divide
      eight. */
  lemma KeyIsUsed(key: seq<u8>)
    requires NamedFacts() && |key| == 32
    ensures DecodeNegated(key).Some? <==> exists a :: SpellsKey(key, a)
  {
    if DecodeNegated(key).Some? {
      DecodeEncode(key);
      KeyOrder(key);
      assert SpellsKey(key, KeyOf(key));
    } else if a :| SpellsKey(key, a) {
      EncodedKey(key, a);
      KeyOrder(key);
    }
  }

  lemma TimesOfNegation(k: nat, a: (int, int))
    requires NamedFacts() && E().has(a)
    ensures E().Times(k, E().neg(a)) == E().neg(E().Times(k, a))
  {
    CurveLaws();
    assert E().ClosedAt(a, a);
    E().TimesNeg(k, a);
    E().TimesIsMember(k, a);
    E().TimesIsMember(k, E().neg(a));
    E().NegationIsUnique(E().Times(k, E().neg(a)), E().Times(k, a));
  }

  // ------------------------------------------------------------------ equation

  /** S B - h A */
  ghost function Difference(s: nat, h: nat, a: (int, int)): (int, int)
  {
    E().add(E().Times(s, B), E().neg(E().Times(h, a)))
  }

  lemma ChallengeFits(sig: seq<u8>, msg: seq<u8>, key: seq<u8>)
    requires |sig| == SIG_LEN
    ensures Challenge(sig, msg, key) < Pow(256, 32)
  {
    Scalar.PowersOf256();
  }

  /** The extended coordinates compared with R stand for S B - h A. */
  lemma CheckPointIs(key: seq<u8>, h: nat, s: seq<u8>)
    requires NamedFacts() && |key| == |s| == 32 && DecodeNegated(key).Some? && h < Pow(256, 32)
    ensures Le(s) >= 0
    ensures var p := CheckPoint(DecodeNegated(key).value, h, s);
      Good(p) && Quotients(p) == Difference(Le(s), h, KeyOf(key))
  {
    var n := DecodeNegated(key).value;
    KeyNegates(key);
    BasePointIsGood();
    LeOfBytes(h, 32);
    LadderMultiplies(n, Bytes(h, 32));
    LadderMultiplies(BASE_POINT, s);
    AddRefinesAffine(Climb(n, Bytes(h, 32), 0).0, Climb(BASE_POINT, s, 0).0);
    TimesOfNegation(h, KeyOf(key));
    SumCommutes(E().Times(h, Quotients(n)), E().Times(Le(s), B));
  }

  /** vl_ed25519_verify returns 1 exactly when S is reduced, the key is accepted, and the bytes R
      encode S B - h A. */
  lemma AcceptsMeans(sig: seq<u8>, msg: seq<u8>, key: seq<u8>)
    requires NamedFacts() && |sig| == SIG_LEN && |key| == KEY_LEN
    ensures Le(sig[32..]) >= 0
    ensures Accepts(sig, msg, key) <==>
      && Le(sig[32..]) < Scalar.L
      && DecodeNegated(key).Some?
      && Le(sig[..32]) == Encode(Difference(Le(sig[32..]), Challenge(sig, msg, key), KeyOf(key)))
  {
    var s, h := sig[32..], Challenge(sig, msg, key);
    LeNatural(s);
    if DecodeNegated(key).Some? {
      ChallengeFits(sig, msg, key);
      CheckPointIs(key, h, s);
      AffineIsQuotients(CheckPoint(DecodeNegated(key).value, h, s));
    }
  }

  /** The verification equation S B = R + h A, when the first half encodes a point R: h is the hash
      of R, the key and the message, the byte counter wrapping at 2^64. */
  lemma VerificationEquation(sig: seq<u8>, msg: seq<u8>, key: seq<u8>, r: (int, int))
    requires NamedFacts() && |sig| == SIG_LEN && |key| == KEY_LEN
    requires IsAffinePoint(r) && Le(sig[..32]) == Encode(r)
    ensures Le(sig[32..]) >= 0
    ensures var m := sig[..32] + key + msg;
      var h: nat := Le(Sha512.HashWithLength(m, 8 * (|m| % TWO_64))) % Scalar.L;
      Accepts(sig, msg, key) <==>
        && Le(sig[32..]) < Scalar.L
        && DecodeNegated(key).Some?
        && E().Times(Le(sig[32..]), B) == E().add(r, E().Times(h, KeyOf(key)))
  {
    AcceptsMeans(sig, msg, key);
    if DecodeNegated(key).Some? {
      DifferenceIs(Le(sig[32..]), Challenge(sig, msg, key), key, r);
    }
  }

  /** The same as section 5.1.7 of RFC 8032 has it, for messages that one SHA-512 can hash. */
  lemma EquationWithSha512(sig: seq<u8>, msg: seq<u8>, key: seq<u8>, r: (int, int))
    requires NamedFacts() && |sig| == SIG_LEN && |key| == KEY_LEN && |msg| + 64 < TWO_64
    requires IsAffinePoint(r) && Le(sig[..32]) == Encode(r)
    ensures Le(sig[32..]) >= 0 && Le(Sha512.Sha512(sig[..32] + key + msg)) >= 0
    ensures Accepts(sig, msg, key) <==>
      && Le(sig[32..]) < Scalar.L
      && DecodeNegated(key).Some?
      && E().Times(Le(sig[32..]), B)
         == E().add(r, E().Times(Le(Sha512.Sha512(sig[..32] + key + msg)) % Scalar.L, KeyOf(key)))
  {
    VerificationEquation(sig, msg, key, r);
    Sha512.WholeLength(sig[..32] + key + msg);
    LeNatural(Sha512.Sha512(sig[..32] + key + msg));
  }

  /** The canonical encoding of a point of the curve. */
  ghost predicate IsCanonicalEncoding(bytes: seq<u8>, a: (int, int))
  {
    |bytes| == 32 && IsAffinePoint(a) && Le(bytes) == Encode(a)
  }

  /** An accepted R and an accepted key are canonical encodings, of S B - h A and of A: y below p,
      and no sign bit on x = 0. */
  lemma AcceptedIsCanonical(sig: seq<u8>, msg: seq<u8>, key: seq<u8>)
    requires NamedFacts() && |sig| == SIG_LEN && |key| == KEY_LEN && Accepts(sig, msg, key)
    ensures Le(sig[32..]) >= 0
    ensures IsCanonicalEncoding(sig[..32], Difference(Le(sig[32..]), Challenge(sig, msg, key), KeyOf(key)))
    ensures IsCanonicalEncoding(key, KeyOf(key)) && KeyOf(key).0 != 0
  {
    AcceptsMeans(sig, msg, key);
    DecodeEncode(key);
    DifferenceIsPoint(Le(sig[32..]), Challenge(sig, msg, key), key);
  }

  lemma DifferenceIsPoint(s: nat, h: nat, key: seq<u8>)
    requires NamedFacts() && |key| == KEY_LEN && KeyPoint(key).Some?
    ensures IsAffinePoint(Difference(s, h, KeyOf(key)))
  {
    CurveLaws();
    KeyNegates(key);
    BasePointIsGood();
    AffineIsPoint(BASE_POINT);
    E().TimesIsMember(s, B);
    E().TimesIsMember(h, KeyOf(key));
    var u, v := E().Times(s, B), E().Times(h, KeyOf(key));
    assert E().ClosedAt(v, v) && E().ClosedAt(u, E().neg(v));
  }

  lemma DifferenceIs(s: nat, h: nat, key: seq<u8>, r: (int, int))
    requires NamedFacts() && |key| == KEY_LEN && KeyPoint(key).Some? && IsAffinePoint(r)
    ensures Encode(r) == Encode(Difference(s, h, KeyOf(key)))
       <==> E().Times(s, B) == E().add(r, E().Times(h, KeyOf(key)))
  {
    CurveLaws();
    KeyNegates(key);
    BasePointIsGood();
    AffineIsPoint(BASE_POINT);
    var u, v := E().Times(s, B), E().Times(h, KeyOf(key));
    E().TimesIsMember(s, B);
    E().TimesIsMember(h, KeyOf(key));
    assert E().ClosedAt(v, v) && E().ClosedAt(u, E().neg(v));
    E().Transpose(u, v, r);
    if Encode(r) == Encode(Difference(s, h, KeyOf(key))) {
      EncodeInjective(r, Difference(s, h, KeyOf(key)));
    }
  }

  // ------------------------------------------------------------------- signing

  /** The order of the base point. */
  ghost predicate BaseHasOrderL()
  {
    E().Times(Scalar.L, B) == E().zero
  }

  /** Signing as section 5.1.6 of RFC 8032 does, with secret scalar a and nonce r: R encodes r B
      and S = (r + h a) mod L. */
  ghost predicate IsSignature(sig: seq<u8>, msg: seq<u8>, key: seq<u8>, a: nat, r: nat)
    requires |sig| == SIG_LEN
  {
    var m := sig[..32] + key + msg;
    var h := Le(Sha512.HashWithLength(m, 8 * (|m| % TWO_64))) % Scalar.L;
    && Le(sig[..32]) == Encode(E().Times(r, B))
    && Le(sig[32..]) == (r + h * a) % Scalar.L
  }

  /** Every signature made with the secret of an accepted key is accepted. */
  lemma SignedIsAccepted(sig: seq<u8>, msg: seq<u8>, key: seq<u8>, a: nat, r: nat)
    requires NamedFacts() && BaseHasOrderL() && |sig| == SIG_LEN && |key| == KEY_LEN
    requires DecodeNegated(key).Some? && KeyOf(key) == E().Times(a, B)
    requires IsSignature(sig, msg, key, a, r)
    ensures Accepts(sig, msg, key)
  {
    var h := Challenge(sig, msg, key);
    CurveLaws();
    BasePointIsGood();
    AffineIsPoint(BASE_POINT);
    E().TimesIsMember(r, B);
    E().TimesTimes(h, a, B);
    E().TimesAdd(r, h * a, B);
    E().TimesPeriod(r + h * a, Scalar.L, B);
    VerificationEquation(sig, msg, key, E().Times(r, B));
  }

  /** The same with the hash of section 5.1.6 of RFC 8032. */
  lemma SignedWithSha512(sig: seq<u8>, msg: seq<u8>, key: seq<u8>, a: nat, r: nat)
    requires NamedFacts() && BaseHasOrderL() && |sig| == SIG_LEN && |key| == KEY_LEN && |msg| + 64 < TWO_64
    requires DecodeNegated(key).Some? && KeyOf(key) == E().Times(a, B)
    requires Le(sig[..32]) == Encode(E().Times(r, B))
    requires Le(sig[32..]) == (r + Le(Sha512.Sha512(sig[..32] + key + msg)) % Scalar.L * a) % Scalar.L
    ensures Accepts(sig, msg, key)
  {
    Sha512.WholeLength(sig[..32] + key + msg);
    SignedIsAccepted(sig, msg, key, a, r);
  }

  // ----------------------------------------------------------------- existence

  /** The base point's order does not divide eight, because it divides an odd number. */
  lemma BaseIsUsable()
    requires NamedFacts() && BaseHasOrderL()
    ensures IsAffinePoint(B) && E().Times(1, B) == B && E().Times(8, B) != E().zero
  {
    CurveLaws();
    BasePointIsGood();
    AffineIsPoint(BASE_POINT);
    assert E().NeutralAt(B);
    assert E().Times(1, B) == E().add(E().Times(0, B), B);
    E().OddOrder(Scalar.L, B);
  }

  /** A number below 2^256 as key bytes. */
  lemma KeyBytes(x: nat) returns (key: seq<u8>)
    requires x < 2 * (P + 19)
    ensures |key| == 32 && Le(key) == x
  {
    Scalar.PowersOf256();
    key := Bytes(x, 32);
    LeOfBytes(x, 32);
  }

  /** The key of secret 1. */
  lemma BaseKey() returns (key: seq<u8>)
    requires NamedFacts() && BaseHasOrderL()
    ensures |key| == 32 && DecodeNegated(key).Some? && KeyOf(key) == E().Times(1, B)
  {
    BaseIsUsable();
    key := KeyBytes(Encode(B));
    EncodedKey(key, B);
    KeyOrder(key);
  }

  /** A signature exists for every message: the one made with secret 1 and nonce 1. */
  lemma SomeSignature(key: seq<u8>, msg: seq<u8>) returns (sig: seq<u8>)
    requires NamedFacts() && BaseHasOrderL()
    requires |key| == 32 && DecodeNegated(key).Some? && KeyOf(key) == E().Times(1, B)
    ensures |sig| == SIG_LEN && Accepts(sig, msg, key)
  {
    BaseIsUsable();
    var r := KeyBytes(Encode(B));
    var h := Challenge(r + r, msg, key);
    var s := KeyBytes((1 + h) % Scalar.L);
    sig := r + s;
    assert sig[..32] == r && (r + r)[..32] == r && sig[32..] == s;
    SignedIsAccepted(sig, msg, key, 1, 1);
  }
}
