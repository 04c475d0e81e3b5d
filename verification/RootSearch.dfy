/** The square root search finds a root whenever there is one: the candidate is a root up to sign,
    and its product with sqrt(-1) changes the sign. */
module RootSearch {
  import opened Words
  import opened Digits
  import opened Modular
  import opened Field
  import opened FieldPower
  import opened Curve
  import opened Ladder
  import opened Decode
  import opened AffineCurve

  lemma FullPower(z: int, m: nat)
    requires FieldInverses() && !Equal(z, 0) && m == P - 1
    ensures Equal(Pow(z, m), 1)
  {
    assert PowerInverts(z);
    assert m - 1 == INVERSE_EXPONENT;
  }

  /** Half the full power is 1 or -1. */
  lemma SignOfPower(x: int, h: nat)
    requires FieldInverses() && !Equal(x, 0) && h + h == P - 1
    ensures Equal(Pow(x, h), 1) || Equal(Pow(x, h), -1)
  {
    PowAdd(x, h, h);
    FullPower(x, h + h);
    UnitSquare(Pow(x, h));
  }

  lemma UnitSquare(w: int)
    requires FieldInverses() && Equal(w * w, 1)
    ensures Equal(w, 1) || Equal(w, -1)
  {
    Refl(1);
    CongSub(P, w * w, 1, 1, 1);
    assert (w - 1) * (w + 1) == w * w - 1;
    NoZeroDivisors(w - 1, w + 1);
    if Equal(w - 1, 0) {
      CongAdd(P, w - 1, 0, 1, 1);
    } else {
      CongSub(P, w + 1, 0, 1, 1);
    }
  }

  lemma Square(x: int)
    ensures Pow(x, 2) == x * x
  {
    assert Pow(x, 0) == 1;
    assert Pow(x, 1) == x * 1;
  }

  lemma FourthPower(v: int)
    ensures Pow(v, 4) == (v * v) * (v * v)
  {
    Square(v);
    PowAdd(v, 2, 2);
  }

  lemma EighthPower(v: int)
    ensures Pow(v, 8) == ((v * v) * (v * v)) * ((v * v) * (v * v))
  {
    FourthPower(v);
    PowAdd(v, 4, 4);
  }

  /** u v^7 is x^2 v^8 when u = x^2 v. */
  lemma RootBaseIs(xx: int, u: int, v: int)
    requires Equal(xx * v, u)
    ensures Equal(RootBase(u, v), xx * Pow(v, 8))
  {
    var w := ((v * v) * (v * v)) * (v * v);
    Refl(w);
    Refl(v);
    CongSym(P, xx * v, u);
    CongMul(P, w, w, u, xx * v);
    CongMul(P, w * u, w * (xx * v), v, v);
    EighthPower(v);
    CollectEight(xx, v * v, v);
  }

  lemma CollectEight(xx: int, vv: int, v: int)
    requires vv == v * v
    ensures ((vv * vv) * vv) * (xx * v) * v == xx * ((vv * vv) * (vv * vv))
  {
    var w := (vv * vv) * vv;
    assert w * (xx * v) * v == (w * xx) * vv;
    assert (w * xx) * vv == xx * (w * vv);
    assert w * vv == (vv * vv) * (vv * vv);
  }

  /** The power of the root base, split into powers of x and v. */
  lemma BasePower(x: int, u: int, v: int, e: nat)
    requires Equal((x * x) * v, u)
    ensures Equal(Pow(RootBase(u, v), e), Pow(x, e + e) * Pow(v, 8 * e))
  {
    var w := Pow(v, 8);
    RootBaseIs(x * x, u, v);
    PowCong(RootBase(u, v), (x * x) * w, e);
    PowProduct(x * x, w, e);
    PowProduct(x, x, e);
    PowAdd(x, e, e);
    PowPow(v, 8, e);
  }

  /** The candidate, with its factors collected. */
  lemma CandidateProduct(x: int, u: int, v: int, r: int, a: int, b: int)
    requires Equal((x * x) * v, u) && Equal(r, a * b)
    ensures Equal(r * u * v * v * v, (a * (x * x)) * (b * ((v * v) * (v * v))))
  {
    var xx := x * x;
    Refl(v);
    CongSym(P, xx * v, u);
    CongMul(P, r, a * b, u, xx * v);
    CongMul(P, r * u, a * b * (xx * v), v, v);
    CongMul(P, r * u * v, a * b * (xx * v) * v, v, v);
    CongMul(P, r * u * v * v, a * b * (xx * v) * v * v, v, v);
    CollectFour(a, b, xx, v);
  }

  /** The powers of v make the full power. */
  lemma FullPowerOfV(v: int, e: nat)
    requires FieldInverses() && e == ROOT_EXPONENT && !Equal(v, 0)
    ensures Equal(Pow(v, 8 * e) * ((v * v) * (v * v)), 1)
  {
    FourthPower(v);
    PowAdd(v, 8 * e, 4);
    FullPower(v, 8 * e + 4);
  }

  /** The candidate is a power of x. */
  lemma CandidateIs(x: int, u: int, v: int, e: nat)
    requires FieldInverses() && e == ROOT_EXPONENT && Equal((x * x) * v, u) && !Equal(v, 0)
    ensures Equal(Candidate(u, v), Pow(x, e + e + 2))
  {
    var a, b := Pow(x, e + e), Pow(v, 8 * e);
    BasePower(x, u, v, e);
    CandidateProduct(x, u, v, Pow(RootBase(u, v), e), a, b);
    FullPowerOfV(v, e);
    Square(x);
    PowAdd(x, e + e, 2);
    Refl(a * (x * x));
    CongMul(P, a * (x * x), a * (x * x), b * ((v * v) * (v * v)), 1);
    CongTrans(P, Candidate(u, v), (a * (x * x)) * (b * ((v * v) * (v * v))), a * (x * x));
  }

  lemma CollectFour(a: int, b: int, xx: int, v: int)
    ensures a * b * (xx * v) * v * v * v == (a * xx) * (b * ((v * v) * (v * v)))
  {
    var s := v * v;
    assert a * b * (xx * v) * v == (a * xx) * (b * s);
    assert (a * xx) * (b * s) * v * v == (a * xx) * (b * s) * s;
    assert (b * s) * s == b * (s * s);
  }

  /** A power of x whose double is two more than half the full power squares to x^2 or -x^2. */
  lemma SquareOfPower(x: int, k: nat, h: nat)
    requires FieldInverses() && !Equal(x, 0) && h + h == P - 1 && k + k == h + 2
    ensures Equal(Pow(x, k) * Pow(x, k), x * x) || Equal(Pow(x, k) * Pow(x, k), -(x * x))
  {
    var w := Pow(x, h);
    PowAdd(x, k, k);
    PowAdd(x, h, 2);
    Square(x);
    SignOfPower(x, h);
    Refl(x * x);
    if Equal(w, 1) {
      CongMul(P, w, 1, x * x, x * x);
    } else {
      CongMul(P, w, -1, x * x, x * x);
      assert -1 * (x * x) == -(x * x);
    }
  }

  /** The candidate's square is x^2 or -x^2. */
  lemma CandidateSquare(x: int, u: int, v: int, e: nat)
    requires FieldInverses() && e == ROOT_EXPONENT && Equal((x * x) * v, u) && !Equal(v, 0) && !Equal(x, 0)
    ensures var c := Candidate(u, v); Equal(c * c, x * x) || Equal(c * c, -(x * x))
  {
    var c, w := Candidate(u, v), Pow(x, e + e + 2);
    CandidateIs(x, u, v, e);
    CongMul(P, c, w, c, w);
    SquareOfPower(x, e + e + 2, 4 * e + 2);
    if Equal(w * w, x * x) {
      CongTrans(P, c * c, w * w, x * x);
    } else {
      CongTrans(P, c * c, w * w, -(x * x));
    }
  }

  lemma ZeroRoot(x: int, u: int, v: int)
    requires Equal((x * x) * v, u) && Equal(x, 0)
    ensures IsRoot(Candidate(u, v), u, v)
  {
    ZeroTimes(x, x);
    ZeroTimes(x * x, v);
    CongSym(P, (x * x) * v, u);
    CongTrans(P, u, (x * x) * v, 0);
    var w := Pow(RootBase(u, v), ROOT_EXPONENT);
    ZeroTimes(u, w);
    ZeroTimes(w * u, v);
    ZeroTimes(w * u * v, v);
    ZeroTimes(w * u * v * v, v);
    var c := Candidate(u, v);
    ZeroTimes(c, c);
    ZeroTimes(c * c, v);
    CongSym(P, u, 0);
    CongTrans(P, c * c * v, 0, u);
  }

  /** Multiplying by i, with i^2 = -1, turns a root of the negation into a root. */
  lemma TurnSign(c: int, xx: int, u: int, v: int, i: int)
    requires Equal(c * c, -xx) && Equal(xx * v, u) && Equal(i * i, -1)
    ensures IsRoot(c * i, u, v)
  {
    CongMul(P, c * c, -xx, i * i, -1);
    Refl(v);
    assert (-xx) * -1 == xx;
    CongMul(P, (c * c) * (i * i), xx, v, v);
    assert (c * i) * (c * i) == (c * c) * (i * i);
    CongTrans(P, (c * i) * (c * i) * v, xx * v, u);
  }

  /** If u / v has any root, the one chosen is a root. */
  lemma ChosenIsRoot(x: int, u: int, v: int)
    requires FieldInverses() && Equal((x * x) * v, u) && !Equal(v, 0)
    ensures IsRoot(ChosenRoot(u, v), u, v)
  {
    var c := Candidate(u, v);
    if Equal(x, 0) {
      ZeroRoot(x, u, v);
    } else {
      CandidateSquare(x, u, v, ROOT_EXPONENT);
      if Equal(c * c, x * x) {
        Refl(v);
        CongMul(P, c * c, x * x, v, v);
        CongTrans(P, c * c * v, (x * x) * v, u);
      } else {
        SqrtMinusOne();
        TurnSign(c, x * x, u, v, SQRT_MINUS_ONE);
      }
    }
  }

  lemma FractionJoined(xx: int, yy: int)
    requires Equal(yy - xx, 1 + D * (xx * yy))
    ensures Equal(xx * (1 + yy * D), yy - 1)
  {
    var k := CongElim(P, yy - xx, 1 + D * (xx * yy));
    assert xx * (1 + yy * D) == xx + D * (xx * yy);
    CongIntro(P, xx * (1 + yy * D), yy - 1, -k);
  }

  lemma TriedIsRoot(x: int, y: int)
    requires FieldInverses() && NonSquare() && OnAffine(x, y)
    ensures IsRoot(TriedRoot(y), Numerator(y), Denominator(y))
  {
    var u, v := Numerator(y), Denominator(y);
    OnAffineMeans(x, y);
    FractionJoined(x * x, y * y);
    DenominatorIsNonzero(y);
    assert D * (y * y) == y * y * D;
    ChosenIsRoot(x, u, v);
    UnfoldTriedRoot(Folds(), y);
    CongMod(P, ChosenRoot(u, v));
    Refl(u);
    Refl(v);
    RootCong(ChosenRoot(u, v), u, v, TriedRoot(y), u, v);
  }

  /** A key whose y is that of a point of the curve denotes a point. */
  lemma KeyPointComplete(key: seq<u8>, x: int)
    requires FieldInverses() && NonSquare() && |key| == 32
    requires KeyY(key) < P && OnAffine(x, KeyY(key))
    ensures KeyPoint(key).Some?
  {
    KeyPointMeans(key);
    TriedIsRoot(x, KeyY(key));
  }
}
