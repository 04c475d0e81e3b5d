/** The curve as a group, and the ladder as multiplication in it. Closure and every law but
    associativity are proved; associativity is the third named fact. */
module EdwardsGroup {
  import opened Words
  import opened Digits
  import opened LittleEndian
  import opened Modular
  import opened Bits
  import opened Field
  import opened FieldPower
  import opened Curve
  import opened Ladder
  import opened Decode
  import opened AffineCurve
  import Group
  import Scalar

  ghost function E(): Group.Group<(int, int)>
  {
    Group.Group((a: (int, int)) => IsAffinePoint(a), (a, b) => AffineAdd(a, b), (0, 1),
                (a: (int, int)) => ((-a.0) % P, a.1))
  }

  /** The facts about P, D and the curve that are assumed, by name, where they are used. */
  ghost predicate NamedFacts()
  {
    FieldInverses() && NonSquare() && E().Associative()
  }

  /** Every affine point has extended coordinates, with Z = 1. */
  lemma Lift(a: (int, int)) returns (p: Ext)
    requires IsAffinePoint(a)
    ensures Good(p) && Quotients(p) == a
  {
    p := Ext(a.0, a.1, 1, ProductMod(a.0, a.1));
    UnitIsGood(p);
  }

  lemma UnitIsGood(p: Ext)
    requires p.z == 1 && p.t == ProductMod(p.x, p.y) && IsAffinePoint((p.x, p.y))
    ensures Good(p) && Quotients(p) == (p.x, p.y)
  {
    OnAffineMeans(p.x, p.y);
    ProductModMeans(p.x, p.y);
    ProductCoordinate(p);
    OneIsNotZero();
    UnitZ(p);
  }

  lemma UnitZ(p: Ext)
    requires p.z == 1 && 0 <= p.x < P && 0 <= p.y < P
    ensures Quotients(p) == (p.x, p.y)
  {
    UnitInverse();
    TimesOne(p.x);
    TimesOne(p.y);
  }

  lemma TimesOne(x: int)
    requires 0 <= x < P
    ensures ProductMod(x, 1) == x
  {
    Refl(x);
    ProductModOf(x, 1, x);
  }

  lemma UnitInverse()
    ensures Inv(1) == 1
  {
    Refl(1);
    assert IsInverse(1, 1);
    InverseIsUnique(1, 1, Inv(1));
  }

  lemma OneIsNotZero()
    ensures !Equal(1, 0)
  {
    CongIsSameMod(P, 1, 0);
  }

  lemma NeutralIsGood()
    ensures Good(NEUTRAL) && Quotients(NEUTRAL) == (0, 1) && IsAffinePoint((0, 1))
  {
    ZeroOnCurve(0, 1);
    NothingOver(1);
    UnitIsGood(NEUTRAL);
  }

  lemma ZeroOnCurve(x: int, y: int)
    requires x == 0 && y == 1
    ensures OnAffine(x, y)
  {
    OnAffineMeans(x, y);
    assert x * x == 0 && y * y == 1;
    assert (x * x) * (y * y) == 0;
  }

  lemma NegationIsPoint(a: (int, int))
    requires IsAffinePoint(a)
    ensures IsAffinePoint(((-a.0) % P, a.1))
  {
    OnAffineMeans(a.0, a.1);
    OnAffineMeans((-a.0) % P, a.1);
    var n := (-a.0) % P;
    NegatedSquare(a.0, true);
    Refl(a.1 * a.1);
    CongMul(P, n * n, a.0 * a.0, a.1 * a.1, a.1 * a.1);
    Refl(D);
    CongMul(P, D, D, (n * n) * (a.1 * a.1), (a.0 * a.0) * (a.1 * a.1));
    Refl(1);
    CongAdd(P, 1, 1, D * ((n * n) * (a.1 * a.1)), D * ((a.0 * a.0) * (a.1 * a.1)));
    CongSub(P, a.1 * a.1, a.1 * a.1, n * n, a.0 * a.0);
    var left, right := a.1 * a.1 - a.0 * a.0, 1 + D * ((a.0 * a.0) * (a.1 * a.1));
    CongTrans(P, a.1 * a.1 - n * n, left, right);
    CongSym(P, 1 + D * ((n * n) * (a.1 * a.1)), right);
    CongTrans(P, a.1 * a.1 - n * n, right, 1 + D * ((n * n) * (a.1 * a.1)));
  }

  lemma SumIsPoint(a: (int, int), b: (int, int))
    requires FieldInverses() && NonSquare() && IsAffinePoint(a) && IsAffinePoint(b)
    ensures IsAffinePoint(AffineAdd(a, b))
  {
    var p := Lift(a);
    var q := Lift(b);
    AddRefinesAffine(p, q);
    AffineIsPoint(EdAdd(p, q));
  }

  lemma NeutralAdds(a: (int, int))
    requires IsAffinePoint(a)
    ensures AffineAdd((0, 1), a) == a
  {
    CrossMeans(0, 1, a.0, a.1);
    AffineAddDefinition((0, 1), a);
    assert Cross(0, 1, a.0, a.1) == 0;
    UnitInverse();
    TimesOne(a.0);
    TimesOne(a.1);
  }

  lemma SumCommutes(a: (int, int), b: (int, int))
    ensures AffineAdd(a, b) == AffineAdd(b, a)
  {
    CrossMeans(a.0, a.1, b.0, b.1);
    CrossMeans(b.0, b.1, a.0, a.1);
    AffineAddDefinition(a, b);
    AffineAddDefinition(b, a);
    assert Cross(a.0, a.1, b.0, b.1) == Cross(b.0, b.1, a.0, a.1);
    assert a.0 * b.1 + a.1 * b.0 == b.0 * a.1 + b.1 * a.0;
    assert a.1 * b.1 + a.0 * b.0 == b.1 * a.1 + b.0 * a.0;
  }

  lemma NegationAdds(a: (int, int))
    requires FieldInverses() && NonSquare() && IsAffinePoint(a)
    ensures AffineAdd(((-a.0) % P, a.1), a) == (0, 1)
  {
    NegationIsPoint(a);
    CongMod(P, -a.0);
    CongSym(P, -a.0, (-a.0) % P);
    OppositesAdd(a, (-a.0) % P);
  }

  lemma OppositesAdd(a: (int, int), n: int)
    requires FieldInverses() && NonSquare() && OnAffine(a.0, a.1) && OnAffine(n, a.1) && Equal(n, -a.0)
    ensures AffineAdd((n, a.1), a) == (0, 1)
  {
    AffineAddDefinition((n, a.1), a);
    DenominatorsAreNonzero((n, a.1), a);
    NegationX(a.0, a.1, n, Inv(1 + Cross(n, a.1, a.0, a.1)));
    NegationDenominator(a, n);
    NegationY(a.1 * a.1 + n * a.0, 1 - Cross(n, a.1, a.0, a.1));
  }

  lemma NegationX(x: int, y: int, n: int, i: int)
    requires Equal(n, -x)
    ensures ProductMod(n * y + y * x, i) == 0
  {
    CongMul(P, n, -x, y, y);
    CongAdd(P, n * y, -x * y, y * x, y * x);
    assert -x * y + y * x == 0;
    ZeroTimes(n * y + y * x, i);
    ProductModOf(n * y + y * x, i, 0);
  }

  lemma NegationY(num: int, den: int)
    requires FieldInverses() && !Equal(den, 0) && Equal(num, den)
    ensures ProductMod(num, Inv(den)) == 1
  {
    var i := Inv(den);
    CongMul(P, num, den, i, i);
    InvCancels(den);
    CongTrans(P, num * i, den * i, 1);
    ProductModOf(num, i, 1);
  }

  lemma NegationDenominator(a: (int, int), n: int)
    requires OnAffine(a.0, a.1) && Equal(n, -a.0)
    ensures Equal(a.1 * a.1 + n * a.0, 1 - Cross(n, a.1, a.0, a.1))
  {
    CrossMeans(n, a.1, a.0, a.1);
    OnAffineMeans(a.0, a.1);
    var yy := a.1 * a.1;
    Refl(a.0);
    CongMul(P, n, -a.0, a.0, a.0);
    Refl(yy);
    CongAdd(P, yy, yy, n * a.0, -a.0 * a.0);
    CongMul(P, n * a.0, -a.0 * a.0, yy, yy);
    Refl(D);
    CongMul(P, D, D, (n * a.0) * yy, (-a.0 * a.0) * yy);
    Refl(1);
    CongSub(P, 1, 1, D * ((n * a.0) * yy), D * ((-a.0 * a.0) * yy));
    var m := a.0 * a.0;
    assert -a.0 * a.0 == -m;
    assert D * (-m * yy) == -(D * (m * yy));
    CongSym(P, 1 - D * ((n * a.0) * yy), 1 + D * (m * yy));
    CongTrans(P, yy + n * a.0, yy - m, 1 + D * (m * yy));
    CongTrans(P, yy + n * a.0, 1 + D * (m * yy), 1 - D * ((n * a.0) * yy));
  }

  lemma ClosedAt(a: (int, int), b: (int, int))
    requires FieldInverses() && NonSquare()
    ensures E().ClosedAt(a, b)
  {
    if IsAffinePoint(a) && IsAffinePoint(b) {
      SumIsPoint(a, b);
      NegationIsPoint(a);
    }
  }

  lemma NeutralAt(a: (int, int))
    requires FieldInverses() && NonSquare()
    ensures E().NeutralAt(a)
  {
    if IsAffinePoint(a) {
      NeutralAdds(a);
      NegationAdds(a);
    }
  }

  lemma CurveIsClosed()
    requires FieldInverses() && NonSquare()
    ensures E().Closed()
  {
    NeutralIsGood();
    forall a: (int, int), b: (int, int)
      ensures E().ClosedAt(a, b)
    {
      ClosedAt(a, b);
    }
  }

  /** The curve is closed and satisfies every law of a commutative group but associativity. */
  lemma CurveLaws()
    requires FieldInverses() && NonSquare()
    ensures E().Closed() && E().Laws()
  {
    CurveIsClosed();
    forall a: (int, int), b: (int, int)
      ensures E().CommutativeAt(a, b)
    {
      SumCommutes(a, b);
    }
    forall a: (int, int)
      ensures E().NeutralAt(a)
    {
      NeutralAt(a);
    }
  }

  // -------------------------------------------------------------------- ladder

  /** The number that the bits from i up spell. */
  function BitsAbove(s: seq<u8>, i: nat): nat
    requires i <= 8 * |s|
    decreases 8 * |s| - i
  {
    if i == 8 * |s| then 0 else 2 * BitsAbove(s, i + 1) + Bit(s, i)
  }

  /** Eight bits are one byte: the bits of byte j from bit k up, above the higher bytes. */
  lemma {:induction false} ByteOfBits(s: seq<u8>, j: nat, k: nat, b: int)
    requires j < |s| && k <= 8
    requires forall t :: k <= t < 8 ==> BitOf(b, t - k) == BitOf(s[j], t)
    ensures BitsAbove(s, 8 * j + k) == Pow2(8 - k) * BitsAbove(s, 8 * j + 8) + b % Pow2(8 - k)
    decreases 8 - k
  {
    if k < 8 {
      forall t | k + 1 <= t < 8
        ensures BitOf(b / 2, t - (k + 1)) == BitOf(s[j], t)
      {
        assert BitOf(b, t - k) == BitOf(s[j], t);
      }
      ByteOfBits(s, j, k + 1, b / 2);
      assert BitOf(b, k - k) == BitOf(s[j], k);
      assert (8 * j + k) / 8 == j && (8 * j + k) % 8 == k;
      HalveMod(b, Pow2(7 - k));
      DoubleProduct(Pow2(7 - k), BitsAbove(s, 8 * j + 8));
    }
  }

  lemma DoubleProduct(d: int, n: int)
    ensures 2 * (d * n) == (2 * d) * n
  {
  }

  lemma WholeByte(s: seq<u8>, j: nat, d: int)
    requires j < |s| && d == Pow2(8) == 256
    ensures BitsAbove(s, 8 * j) == 256 * BitsAbove(s, 8 * (j + 1)) + s[j]
  {
    ByteOfBits(s, j, 0, s[j]);
    assert s[j] % d == s[j];
  }

  lemma {:induction false} BitsAreBytes(s: seq<u8>, j: nat)
    requires j <= |s|
    ensures Eval(s, 256, j) + Pow(256, j) * BitsAbove(s, 8 * j) == Le(s)
    decreases |s| - j
  {
    if j < |s| {
      BitsAreBytes(s, j + 1);
      assert Pow2(8) == 256;
      WholeByte(s, j, 256);
      Weigh(Pow(256, j), BitsAbove(s, 8 * (j + 1)), s[j]);
    }
  }

  lemma Weigh(w: int, n: int, b: int)
    ensures w * (256 * n + b) == (256 * w) * n + b * w
  {
  }

  lemma BitsAreScalar(s: seq<u8>)
    ensures Le(s) >= 0 && BitsAbove(s, 0) == Le(s)
  {
    EvalBounds(s, 256, |s|);
    BitsAreBytes(s, 0);
  }

  /** A register that holds k times the point q. */
  ghost predicate Holds(p: Ext, k: nat, q: Ext)
  {
    Good(p) && Quotients(p) == E().Times(k, Quotients(q))
  }

  /** Adding registers adds multiples. */
  lemma SumHolds(p: Ext, j: nat, r: Ext, k: nat, q: Ext)
    requires NamedFacts() && Good(q) && Holds(p, j, q) && Holds(r, k, q)
    ensures Holds(EdAdd(p, r), j + k, q)
  {
    CurveLaws();
    AffineIsPoint(q);
    AddRefinesAffine(p, r);
    E().TimesAdd(j, k, Quotients(q));
  }

  /** The ladder's invariant: after the bits from i up, which spell k, the registers hold k
      times and k + 1 times the start. */
  lemma {:induction false} LadderInvariant(q: Ext, s: seq<u8>, i: nat)
    requires NamedFacts() && Good(q) && i <= 8 * |s|
    ensures Holds(Climb(q, s, i).0, BitsAbove(s, i), q)
    ensures Holds(Climb(q, s, i).1, BitsAbove(s, i) + 1, q)
    decreases 8 * |s| - i
  {
    if i == 8 * |s| {
      NeutralHolds(q);
    } else {
      LadderInvariant(q, s, i + 1);
      var (p, r) := Climb(q, s, i + 1);
      var k := BitsAbove(s, i + 1);
      if Bit(s, i) == 1 {
        SumHolds(p, k, r, k + 1, q);
        SumHolds(r, k + 1, r, k + 1, q);
      } else {
        SumHolds(p, k, p, k, q);
        SumHolds(r, k + 1, p, k, q);
      }
    }
  }

  lemma NeutralHolds(q: Ext)
    requires NamedFacts() && Good(q)
    ensures Holds(NEUTRAL, 0, q) && Holds(q, 1, q)
  {
    CurveLaws();
    AffineIsPoint(q);
    NeutralIsGood();
    var g := Quotients(q);
    assert E().NeutralAt(g);
    assert E().Times(1, g) == E().add(E().Times(0, g), g);
  }

  /** scalarmult multiplies by the scalar its bytes denote. */
  lemma LadderMultiplies(q: Ext, s: seq<u8>)
    requires NamedFacts() && Good(q)
    ensures Le(s) >= 0 && Holds(Climb(q, s, 0).0, Le(s), q)
  {
    LadderInvariant(q, s, 0);
    BitsAreScalar(s);
  }

  // ----------------------------------------------------------- points in play

  lemma TwoTo252()
    ensures 16 * Pow(2, 252) == Scalar.TWO_256 && 8 * Pow(2, 252) == Pow(2, 255)
  {
    var b := 2;
    Scalar.PowersOf256();
    assert Pow(2, 8) == 256 && Pow(2, 4) == 16 && Pow(2, 3) == 8;
    PowPow(b, 8, 32);
    PowAdd(b, 4, 252);
    PowAdd(b, 3, 252);
  }

  /** The modulus of the field and the order of the group, as section 5.1 of RFC 8032 has them. */
  lemma Moduli()
    ensures P == Pow(2, 255) - 19
    ensures Scalar.L == Pow(2, 252) + 27742317777372353535851937790883648493
  {
    TwoTo252();
  }

  /** The constants are those of section 5.1 of RFC 8032: d = -121665/121666, a square root of
      -1, and the base point with y = 4/5 and even x, which lies on the curve. */
  lemma Constants()
    ensures Equal(121666 * D, -121665)
    ensures Equal(SQRT_MINUS_ONE * SQRT_MINUS_ONE, -1)
    ensures Equal(5 * BASE_Y, 4) && BASE_X % 2 == 0
    ensures OnAffine(BASE_X, BASE_Y)
  {
    OnAffineMeans(BASE_X, BASE_Y);
    SealedValue(D_VALUE);
    CongIntro(P, 121666 * D, -121665, (121666 * D_VALUE + 121665) / P);
    SqrtMinusOne();
    CongIntro(P, 5 * BASE_Y, 4, (5 * BASE_Y - 4) / P);
    var left, right := BASE_Y * BASE_Y - BASE_X * BASE_X, 1 + D * ((BASE_X * BASE_X) * (BASE_Y * BASE_Y));
    var value := 1 + D_VALUE * ((BASE_X * BASE_X) * (BASE_Y * BASE_Y));
    CongIntro(P, left, right, (left - value) / P);
  }

  lemma BasePointIsGood()
    ensures Good(BASE_POINT) && Quotients(BASE_POINT) == (BASE_X, BASE_Y)
  {
    Constants();
    BaseCoordinates(BASE_POINT);
    UnitIsGood(BASE_POINT);
  }

  lemma BaseCoordinates(p: Ext)
    requires p == BASE_POINT
    ensures p.x == BASE_X && p.y == BASE_Y && p.z == 1 && p.t == ProductMod(p.x, p.y)
  {
    ProductModMeans(BASE_X, BASE_Y);
  }

  /** x = 0 gives a point whose multiple by eight encodes as the identity. */
  lemma ZeroXIsLowOrder(p: Ext)
    requires FieldInverses() && p.x == 0 && p.z == 1 && p.t == 0 && Equal(p.y * p.y, 1)
    ensures IsLowOrder(p)
  {
    EightOfZeroX(p);
    SameCoordinates(Eight(p));
  }

  lemma EightOfZeroX(p: Ext)
    requires p.x == 0 && p.z == 1 && p.t == 0 && Equal(p.y * p.y, 1)
    ensures var r := Eight(p); r.x == 0 && r.y == r.z && r.z % P != 0
  {
    var q := EdAdd(p, p);
    Doubled(p, p.y * p.y, 1);
    var r := EdAdd(q, q);
    Doubled(q, 16, 16);
    assert r == Ext(0, 0x400, 0x400, 0);
    Doubled(r, 0x10_0000, 0x10_0000);
    assert EdAdd(r, r) == Ext(0, 0x400_0000_0000, 0x400_0000_0000, 0);
  }

  /** Doubling a point with X = T = 0. */
  lemma Doubled(p: Ext, yy: int, zz: int)
    requires p.x == 0 && p.t == 0 && p.y * p.y == yy && p.z * p.z == zz && Equal(yy, zz)
    ensures var w := (4 * (zz * zz)) % P; EdAdd(p, p) == Ext(0, w, w, 0)
  {
    EdAddDefinition(p, p);
    assert p.t * p.t == 0;
    assert Formula(p, p) == Ext(0, (2 * yy) * (2 * zz), (2 * zz) * (2 * zz), 0);
    CongMul(P, 2, 2, yy, zz);
    CongMul(P, 2 * yy, 2 * zz, 2 * zz, 2 * zz);
    CongIsSameMod(P, (2 * yy) * (2 * zz), (2 * zz) * (2 * zz));
    assert (2 * zz) * (2 * zz) == 4 * (zz * zz);
  }

  lemma SameCoordinates(p: Ext)
    requires FieldInverses() && p.x == 0 && p.y == p.z && p.z % P != 0
    ensures Encode(Affine(p)) == 1
  {
    NothingOver(Pow(p.z, INVERSE_EXPONENT));
    SameOver(p.z);
  }

  lemma NothingOver(w: int)
    ensures ProductMod(0, w) == 0
  {
    ProductModMeans(0, w);
    assert 0 * w == 0;
  }

  lemma SameOver(z: int)
    requires FieldInverses() && z % P != 0
    ensures ProductMod(z, Pow(z, INVERSE_EXPONENT)) == 1
  {
    CongIsSameMod(P, z, 0);
    assert PowerInverts(z);
    ProductModOf(z, Pow(z, INVERSE_EXPONENT), 1);
  }

  lemma DecodedXIsNonzero(key: seq<u8>)
    requires FieldInverses() && |key| == 32 && DecodeNegated(key).Some?
    ensures DecodeNegated(key).value.x != 0
  {
    DecodeNegatedMeans(key);
    KeyPointMeans(key);
    var p := DecodeNegated(key).value;
    DecodedIsOnCurve(key);
    OnAffineMeans(p.x, p.y);
    if p.x == 0 {
      NothingOver(p.y);
      YIsUnit(p.y);
      ZeroXIsLowOrder(p);
    }
  }

  /** The accepted point's x is nonzero and has the parity opposite to the key's sign bit: it is
      the negation of the point of section 5.1.3 of RFC 8032. */
  lemma DecodedSign(key: seq<u8>)
    requires FieldInverses() && |key| == 32 && DecodeNegated(key).Some?
    ensures var x := DecodeNegated(key).value.x;
      0 < x < P && x % 2 != KeySign(key)
  {
    DecodedXIsNonzero(key);
    KeyPointSign(key);
  }

  /** The point a key denotes, negated, has x = 0 or the parity opposite to the sign bit. */
  lemma KeyPointSign(key: seq<u8>)
    requires |key| == 32 && KeyPoint(key).Some?
    ensures var x := KeyPoint(key).value.x;
      0 <= x < P && 0 <= KeySign(key) <= 1 && (x == 0 || x % 2 != KeySign(key))
  {
    KeyPointMeans(key);
    SplitKey(key);
    NegatedParity(TriedRoot(KeyY(key)), KeySign(key));
  }

  lemma NegatedParity(x: int, sign: int)
    requires 0 <= x < P && 0 <= sign <= 1
    ensures var s := Negated(x, x % 2 == sign); 0 <= s < P && (s == 0 || s % 2 != sign)
  {
  }

  lemma YIsUnit(y: int)
    requires OnAffine(0, y)
    ensures Equal(y * y, 1)
  {
    OnAffineMeans(0, y);
    assert (0 * 0) * (y * y) == 0;
  }
}
