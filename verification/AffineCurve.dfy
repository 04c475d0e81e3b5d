/** The curve as a set of affine points, and the extended coordinates as a refinement of it.
    Two facts about the numbers P and D are named, not proved: that every nonzero element is
    inverted by its power P - 2, and that D is not a square. */
module AffineCurve {
  import opened Digits
  import opened Modular
  import opened Field
  import opened FieldPower
  import opened Curve
  import opened Ladder
  import opened Decode
  import opened EdwardsLaw

  /** Holds because P is prime (Fermat). */
  ghost predicate FieldInverses()
  {
    forall z: int :: PowerInverts(z)
  }

  ghost predicate PowerInverts(z: int)
  {
    Equal(z, 0) || Equal(z * Pow(z, INVERSE_EXPONENT), 1)
  }

  ghost predicate IsSquareRoot(s: int, v: int)
  {
    Equal(s * s, v)
  }

  /** Holds by Euler's criterion. */
  ghost predicate NonSquare()
  {
    forall s: int :: !IsSquareRoot(s, D)
  }

  ghost predicate IsInverse(z: int, i: int)
  {
    0 <= i < P && Equal(z * i, 1)
  }

  /** The inverse, as a number below P; 0 where there is none. */
  ghost function Inv(z: int): int
  {
    if exists i :: IsInverse(z, i) then var i :| IsInverse(z, i); i else 0
  }

  // ------------------------------------------------------------- field helpers

  lemma InverseIsUnique(z: int, i: int, j: int)
    requires IsInverse(z, i) && IsInverse(z, j)
    ensures i == j
  {
    Refl(i);
    Refl(j);
    CongMul(P, z * i, 1, j, j);
    CongMul(P, z * j, 1, i, i);
    assert (z * i) * j == (z * j) * i;
    CongSym(P, (z * i) * j, 1 * j);
    CongTrans(P, j, (z * i) * j, i);
    CongIsSameMod(P, j, i);
  }

  /** The power that the code computes is the inverse. */
  lemma PowerIsInverse(z: int)
    requires FieldInverses() && !Equal(z, 0)
    ensures Equal(Pow(z, INVERSE_EXPONENT), Inv(z)) && IsInverse(z, Inv(z))
  {
    var w := Pow(z, INVERSE_EXPONENT);
    assert PowerInverts(z);
    CongMod(P, w);
    CongSym(P, w, w % P);
    Refl(z);
    CongMul(P, z, z, w % P, w);
    CongTrans(P, z * (w % P), z * w, 1);
    assert IsInverse(z, w % P);
    InverseIsUnique(z, w % P, Inv(z));
    CongSym(P, w % P, w);
  }

  lemma InvCancels(z: int)
    requires FieldInverses() && !Equal(z, 0)
    ensures Equal(z * Inv(z), 1)
  {
    PowerIsInverse(z);
  }

  /** A product is zero only if a factor is. */
  lemma NoZeroDivisors(a: int, b: int)
    requires FieldInverses() && Equal(a * b, 0)
    ensures Equal(a, 0) || Equal(b, 0)
  {
    if !Equal(a, 0) {
      InvCancels(a);
      Refl(b);
      Refl(Inv(a));
      CongMul(P, a * b, 0, Inv(a), Inv(a));
      CongMul(P, a * Inv(a), 1, b, b);
      assert (a * b) * Inv(a) == (a * Inv(a)) * b;
      CongSym(P, (a * Inv(a)) * b, 1 * b);
      CongTrans(P, b, (a * Inv(a)) * b, 0);
    }
  }

  /** Equal ratios have equal quotients. */
  lemma CrossCancel(x: int, z: int, e: int, g: int)
    requires FieldInverses() && !Equal(z, 0) && !Equal(g, 0)
    requires Equal(x * g, z * e)
    ensures Equal(x * Inv(z), e * Inv(g))
  {
    var i, j := Inv(z), Inv(g);
    InvCancels(z);
    InvCancels(g);
    Refl(x * i);
    Refl(e * j);
    Refl(i * j);
    CongMul(P, g * j, 1, x * i, x * i);
    CongMul(P, z * i, 1, e * j, e * j);
    CongMul(P, x * g, z * e, i * j, i * j);
    assert (g * j) * (x * i) == (x * g) * (i * j);
    assert (z * i) * (e * j) == (z * e) * (i * j);
    CongSym(P, (g * j) * (x * i), 1 * (x * i));
    CongTrans(P, x * i, (x * g) * (i * j), (z * e) * (i * j));
    CongTrans(P, x * i, (z * e) * (i * j), e * j);
  }

  // ------------------------------------------------------------- completeness

  /** The affine curve; kept folded. */
  ghost predicate OnAffine(x: int, y: int)
  {
    OnAffineBy(Folds(), x, y)
  }

  ghost predicate OnAffineBy(n: nat, x: int, y: int)
  {
    if n == 0 then Equal(y * y - x * x, 1 + D * ((x * x) * (y * y))) else OnAffineBy(n - 1, x, y)
  }

  lemma {:induction false} UnfoldOnAffine(n: nat, x: int, y: int)
    ensures OnAffineBy(n, x, y) <==> Equal(y * y - x * x, 1 + D * ((x * x) * (y * y)))
  {
    if n != 0 {
      UnfoldOnAffine(n - 1, x, y);
    }
  }

  lemma OnAffineMeans(x: int, y: int)
    ensures OnAffine(x, y) <==> Equal(y * y - x * x, 1 + D * ((x * x) * (y * y)))
  {
    UnfoldOnAffine(Folds(), x, y);
  }

  lemma SqrtMinusOne()
    ensures Equal(SQRT_MINUS_ONE * SQRT_MINUS_ONE, -1)
  {
    CongIntro(P, SQRT_MINUS_ONE * SQRT_MINUS_ONE, -1, (SQRT_MINUS_ONE * SQRT_MINUS_ONE + 1) / P);
  }

  /** d x1 x2 y1 y2, the term the denominators of the addition law contain; kept folded. */
  ghost function Cross(x: int, y: int, u: int, v: int): int
  {
    CrossBy(Folds(), x, y, u, v)
  }

  ghost function CrossBy(n: nat, x: int, y: int, u: int, v: int): int
  {
    if n == 0 then D * ((x * u) * (y * v)) else CrossBy(n - 1, x, y, u, v)
  }

  lemma {:induction false} UnfoldCross(n: nat, x: int, y: int, u: int, v: int)
    ensures CrossBy(n, x, y, u, v) == D * ((x * u) * (y * v))
  {
    if n != 0 {
      UnfoldCross(n - 1, x, y, u, v);
    }
  }

  lemma CrossMeans(x: int, y: int, u: int, v: int)
    ensures Cross(x, y, u, v) == D * ((x * u) * (y * v))
  {
    UnfoldCross(Folds(), x, y, u, v);
  }

  /** The square of i x + eps y, where i^2 = -1 and x^2, y^2 are those of a point. */
  lemma LeftSquare(ii: int, xx: int, yy: int, b: int, c: int)
    requires Equal(ii, -1) && Equal(yy - xx, b)
    ensures Equal(ii * xx + (yy + c), b + c)
  {
    Refl(xx);
    Refl(yy + c);
    CongMul(P, ii, -1, xx, xx);
    CongAdd(P, ii * xx, -1 * xx, yy + c, yy + c);
    Refl(c);
    CongAdd(P, yy - xx, b, c, c);
    CongTrans(P, ii * xx + (yy + c), yy - xx + c, b + c);
  }

  lemma LeftExpand(i: int, x: int, eps: int, y: int)
    requires eps * eps == 1
    ensures (i * x + eps * y) * (i * x + eps * y)
         == (i * i) * (x * x) + (y * y + 2 * (i * eps * (x * y)))
  {
    assert (eps * y) * (eps * y) == (eps * eps) * (y * y);
    assert (i * x) * (eps * y) == i * eps * (x * y);
  }

  lemma RightSquare(i: int, x: int, y: int, u: int, v: int, eps: int)
    requires Equal(i * i, -1) && OnAffine(u, v) && eps * eps == 1 && Equal(Cross(x, y, u, v), eps)
    ensures var m := (x * y) * (i * u + v);
      Equal(D * (m * m), 1 + D * ((x * x) * (y * y)) + 2 * (i * eps * (x * y)))
  {
    OnAffineMeans(u, v);
    var k, m := Cross(x, y, u, v), (x * y) * (i * u + v);
    var w := D * ((x * x) * (y * y));
    RightExpand(i, x, y, u, v);
    Refl(u * u);
    Refl(v * v);
    Refl(w);
    CongMul(P, i * i, -1, u * u, u * u);
    CongAdd(P, (i * i) * (u * u), -1 * (u * u), v * v, v * v);
    var b := 1 + D * ((u * u) * (v * v));
    CongTrans(P, (i * i) * (u * u) + v * v, v * v - u * u, b);
    CongMul(P, w, w, (i * i) * (u * u) + v * v, b);
    var q := 2 * (i * (x * y));
    Refl(q);
    CongMul(P, q, q, k, eps);
    CongAdd(P, w * ((i * i) * (u * u) + v * v), w * b, q * k, q * eps);
    CongMul(P, k, eps, k, eps);
    CrossSquare(x, y, u, v);
    CongAdd(P, w, w, k * k, eps * eps);
    Refl(q * eps);
    CongAdd(P, w * b, w + 1, q * eps, q * eps);
    CongTrans(P, D * (m * m), w * b + q * eps, w + 1 + q * eps);
    assert q * eps == 2 * (i * eps * (x * y));
  }

  lemma RightExpand(i: int, x: int, y: int, u: int, v: int)
    ensures var m := (x * y) * (i * u + v);
      D * (m * m) == (D * ((x * x) * (y * y))) * ((i * i) * (u * u) + v * v) + 2 * (i * (x * y)) * Cross(x, y, u, v)
  {
    CrossMeans(x, y, u, v);
    var n, a := x * y, i * u;
    SquareTimes(n, a, v);
    assert n * n == (x * x) * (y * y) && a * a == (i * i) * (u * u);
    MiddleTerm(D, i, n, u, v);
    assert n * (u * v) == (x * u) * (y * v);
    Spread(D, n * n, a * a + v * v, (n * n) * (a * v));
  }

  lemma SquareTimes(n: int, a: int, v: int)
    ensures (n * (a + v)) * (n * (a + v)) == (n * n) * (a * a + v * v) + 2 * ((n * n) * (a * v))
  {
    assert (n * (a + v)) * (n * (a + v)) == (n * n) * ((a + v) * (a + v));
    assert (a + v) * (a + v) == a * a + v * v + 2 * (a * v);
  }

  lemma MiddleTerm(d: int, i: int, n: int, u: int, v: int)
    ensures d * ((n * n) * ((i * u) * v)) == (i * n) * (d * (n * (u * v)))
  {
  }

  lemma Spread(d: int, m: int, s: int, t: int)
    ensures d * (m * s + 2 * t) == (d * m) * s + 2 * (d * t)
  {
  }

  lemma CrossSquare(x: int, y: int, u: int, v: int)
    ensures var w := D * ((x * x) * (y * y)); var k := Cross(x, y, u, v);
      w * (1 + D * ((u * u) * (v * v))) == w + k * k
  {
    CrossMeans(x, y, u, v);
    SquareOfFour(x, y, u, v);
    SquareInside(D, (x * x) * (y * y), (u * u) * (v * v), (x * u) * (y * v));
  }

  lemma SquareOfFour(x: int, y: int, u: int, v: int)
    ensures ((x * u) * (y * v)) * ((x * u) * (y * v)) == ((x * x) * (y * y)) * ((u * u) * (v * v))
  {
    var m, n := x * y, u * v;
    assert (x * u) * (y * v) == m * n;
    assert (m * n) * (m * n) == (m * m) * (n * n);
    assert m * m == (x * x) * (y * y) && n * n == (u * u) * (v * v);
  }

  lemma SquareInside(d: int, a: int, b: int, c: int)
    requires c * c == a * b
    ensures (d * a) * (1 + d * b) == d * a + (d * c) * (d * c)
  {
    assert (d * c) * (d * c) == (d * d) * (c * c);
    assert (d * a) * (d * b) == (d * d) * (a * b);
    assert (d * a) * (1 + d * b) == d * a + (d * a) * (d * b);
  }

  lemma Regroup(n: int, m: int, i: int, d: int)
    ensures (n * i) * (n * i) == (n * n) * (i * i)
    ensures (d * (m * m)) * (i * i) == d * ((m * i) * (m * i))
  {
  }

  lemma RatioIsRoot(n: int, m: int)
    requires FieldInverses() && Equal(n * n, D * (m * m)) && !Equal(m, 0)
    ensures IsSquareRoot(n * Inv(m), D)
  {
    var i := Inv(m);
    InvCancels(m);
    CongMul(P, m * i, 1, m * i, 1);
    CongMul(P, n * n, D * (m * m), i * i, i * i);
    CongMul(P, D, D, (m * i) * (m * i), 1);
    Regroup(n, m, i, D);
    CongTrans(P, (n * i) * (n * i), (D * (m * m)) * (i * i), D);
  }

  /** n^2 = D m^2 forces m = 0 when D is no square. */
  lemma NoRatio(n: int, m: int)
    requires FieldInverses() && NonSquare() && Equal(n * n, D * (m * m))
    ensures Equal(m, 0)
  {
    if !Equal(m, 0) {
      RatioIsRoot(n, m);
    }
  }

  /** The term d x1 x2 y1 y2 of two points on the curve is never 1 or -1. */
  lemma CrossIsNoUnit(x: int, y: int, u: int, v: int, eps: int)
    requires FieldInverses() && NonSquare() && OnAffine(x, y) && OnAffine(u, v)
    requires eps == 1 || eps == -1
    ensures !Equal(Cross(x, y, u, v), eps)
  {
    if Equal(Cross(x, y, u, v), eps) {
      NegateY(x, y, u, v);
      SqrtMinusOne();
      var i := SQRT_MINUS_ONE;
      var f := HalfFactor(i, x, y, u, v, eps);
      var g := HalfFactor(i, x, -y, u, -v, eps);
      FactorsVanish(x, y, u, v, i, f, g, eps);
    }
  }

  lemma NegateY(x: int, y: int, u: int, v: int)
    ensures OnAffine(x, y) ==> OnAffine(x, -y)
    ensures OnAffine(u, v) ==> OnAffine(u, -v)
    ensures Cross(x, -y, u, -v) == Cross(x, y, u, v)
  {
    CrossMeans(x, y, u, v);
    CrossMeans(x, -y, u, -v);
    OnAffineMeans(x, y);
    OnAffineMeans(x, -y);
    OnAffineMeans(u, v);
    OnAffineMeans(u, -v);
    assert (-y) * (-y) == y * y && (-v) * (-v) == v * v && (-y) * (-v) == y * v;
  }

  lemma HalfFactor(i: int, x: int, y: int, u: int, v: int, eps: int) returns (m: int)
    requires FieldInverses() && NonSquare() && OnAffine(x, y) && OnAffine(u, v)
    requires (eps == 1 || eps == -1) && Equal(i * i, -1)
    requires Equal(Cross(x, y, u, v), eps)
    ensures m == (x * y) * (i * u + v) && Equal(m, 0)
  {
    var n := i * x + eps * y;
    m := (x * y) * (i * u + v);
    OnAffineMeans(x, y);
    LeftExpand(i, x, eps, y);
    LeftSquare(i * i, x * x, y * y, 1 + D * ((x * x) * (y * y)), 2 * (i * eps * (x * y)));
    RightSquare(i, x, y, u, v, eps);
    var c := 1 + D * ((x * x) * (y * y)) + 2 * (i * eps * (x * y));
    CongSym(P, D * (m * m), c);
    CongTrans(P, n * n, c, D * (m * m));
    NoRatio(n, m);
  }

  /** Both factors vanishing makes the cross term vanish, which is no unit. */
  lemma FactorsVanish(x: int, y: int, u: int, v: int, i: int, f: int, g: int, eps: int)
    requires FieldInverses() && (eps == 1 || eps == -1)
    requires f == (x * y) * (i * u + v) && g == (x * -y) * (i * u + -v)
    requires Equal(f, 0) && Equal(g, 0)
    ensures !Equal(Cross(x, y, u, v), eps)
  {
    var n := x * y;
    CongAdd(P, f, 0, g, 0);
    SumOfFactors(n, i * u, v, x, y);
    NoZeroDivisors(2 * n, v);
    CrossFactors(x, y, u, v);
    if Equal(v, 0) {
      ZeroTimes(v, D * (u * n));
    } else {
      HalveZero(n);
      ZeroTimes(n, D * (u * v));
    }
    UnitIsNotZero(Cross(x, y, u, v), eps);
  }

  lemma SumOfFactors(n: int, a: int, v: int, x: int, y: int)
    requires n == x * y
    ensures n * (a + v) + (x * -y) * (a + -v) == (2 * n) * v
  {
    assert x * -y == -n;
    assert -n * (a + -v) == n * v - n * a;
  }

  lemma CrossFactors(x: int, y: int, u: int, v: int)
    ensures v * (D * (u * (x * y))) == Cross(x, y, u, v)
    ensures (x * y) * (D * (u * v)) == Cross(x, y, u, v)
  {
    CrossMeans(x, y, u, v);
    assert (x * u) * (y * v) == (x * y) * (u * v);
    assert (x * u) * (y * v) == (u * (x * y)) * v;
  }

  lemma ZeroTimes(z: int, w: int)
    requires Equal(z, 0)
    ensures Equal(z * w, 0)
  {
    Refl(w);
    CongMul(P, z, 0, w, w);
  }

  lemma HalveZero(n: int)
    requires Equal(2 * n, 0)
    ensures Equal(n, 0)
  {
    ZeroTimes(2 * n, (P + 1) / 2);
    CongIntro(P, n, (2 * n) * ((P + 1) / 2), -n);
    CongTrans(P, n, (2 * n) * ((P + 1) / 2), 0);
  }

  lemma UnitIsNotZero(k: int, eps: int)
    requires Equal(k, 0) && (eps == 1 || eps == -1)
    ensures !Equal(k, eps)
  {
    CongIsSameMod(P, k, 0);
    CongIsSameMod(P, k, eps);
  }

  /** 1 + d y^2 is never zero, so x^2 is determined by y. */
  lemma DenominatorIsNonzero(y: int)
    requires FieldInverses() && NonSquare()
    ensures !Equal(1 + D * (y * y), 0)
  {
    if Equal(1 + D * (y * y), 0) {
      MinusOneIs(D * (y * y));
      NoRatio(SQRT_MINUS_ONE, y);
      ZeroTimes(y, y);
      ZeroTimes(y * y, D);
      UnitIsNotZero(D * (y * y), -1);
    }
  }

  lemma MinusOneIs(m: int)
    requires Equal(1 + m, 0)
    ensures Equal(m, -1) && Equal(SQRT_MINUS_ONE * SQRT_MINUS_ONE, m)
  {
    SqrtMinusOne();
    var k := CongElim(P, 1 + m, 0);
    CongIntro(P, m, -1, k);
    CongIntro(P, -1, m, -k);
    CongTrans(P, SQRT_MINUS_ONE * SQRT_MINUS_ONE, -1, m);
  }

  // ---------------------------------------------------------------- refinement

  /** The affine coordinates of a point. */
  ghost function Quotients(p: Ext): (int, int)
  {
    (ProductMod(p.x, Inv(p.z)), ProductMod(p.y, Inv(p.z)))
  }

  /** What pack computes are the affine coordinates. */
  lemma AffineIsQuotients(p: Ext)
    requires FieldInverses() && !Equal(p.z, 0)
    ensures Affine(p) == Quotients(p)
  {
    var w, i := Pow(p.z, INVERSE_EXPONENT), Inv(p.z);
    PowerIsInverse(p.z);
    Refl(p.x);
    Refl(p.y);
    CongMul(P, p.x, p.x, w, i);
    CongMul(P, p.y, p.y, w, i);
    ProductModOf(p.x, w, p.x * i);
    ProductModOf(p.y, w, p.y * i);
    ProductModMeans(p.x, i);
    ProductModMeans(p.y, i);
  }

  /** The affine addition law, kept folded. */
  ghost function AffineAdd(a: (int, int), b: (int, int)): (int, int)
  {
    AffineAddBy(Folds(), a, b)
  }

  ghost function AffineSum(a: (int, int), b: (int, int)): (int, int)
  {
    var k := Cross(a.0, a.1, b.0, b.1);
    (ProductMod(a.0 * b.1 + a.1 * b.0, Inv(1 + k)), ProductMod(a.1 * b.1 + a.0 * b.0, Inv(1 - k)))
  }

  ghost function AffineAddBy(n: nat, a: (int, int), b: (int, int)): (int, int)
  {
    if n == 0 then AffineSum(a, b) else AffineAddBy(n - 1, a, b)
  }

  lemma {:induction false} UnfoldAffineAdd(n: nat, a: (int, int), b: (int, int))
    ensures AffineAddBy(n, a, b) == AffineSum(a, b)
  {
    if n != 0 {
      UnfoldAffineAdd(n - 1, a, b);
    }
  }

  lemma AffineAddDefinition(a: (int, int), b: (int, int))
    ensures AffineAdd(a, b) == AffineSum(a, b)
  {
    UnfoldAffineAdd(Folds(), a, b);
  }

  ghost predicate IsAffinePoint(a: (int, int))
  {
    0 <= a.0 < P && 0 <= a.1 < P && OnAffine(a.0, a.1)
  }

  /** Extended coordinates that stand for an affine point. */
  ghost predicate Good(p: Ext)
  {
    OnCurve(p) && !Equal(p.z, 0)
  }

  /** What the affine coordinates of a point satisfy. */
  lemma Projective(p: Ext)
    requires FieldInverses() && Good(p)
    ensures var a, i := Quotients(p), Inv(p.z);
      && Equal(p.x * i, a.0) && Equal(p.y * i, a.1)
      && Equal(p.z * i, 1) && Equal(p.t * i, a.0 * a.1)
  {
    OnCurveMeans(p);
    var a, i := Quotients(p), Inv(p.z);
    InvCancels(p.z);
    ProductModMeans(p.x, i);
    ProductModMeans(p.y, i);
    CongSym(P, a.0, p.x * i);
    CongSym(P, a.1, p.y * i);
    CongMul(P, p.x * i, a.0, p.y * i, a.1);
    Refl(i * i);
    Refl(p.t * i);
    CongMul(P, p.x * p.y, p.z * p.t, i * i, i * i);
    CongMul(P, p.z * i, 1, p.t * i, p.t * i);
    assert (p.x * i) * (p.y * i) == (p.x * p.y) * (i * i);
    assert (p.z * i) * (p.t * i) == (p.z * p.t) * (i * i);
    CongSym(P, (p.z * i) * (p.t * i), 1 * (p.t * i));
    CongSym(P, (p.x * i) * (p.y * i), (p.z * i) * (p.t * i));
    CongTrans(P, p.t * i, (p.z * i) * (p.t * i), (p.x * i) * (p.y * i));
    CongTrans(P, p.t * i, (p.x * i) * (p.y * i), a.0 * a.1);
  }

  /** Both sides of the curve equation, divided. */
  lemma LeftDivided(x: int, y: int, i: int, a: int, b: int)
    requires Equal(x * i, a) && Equal(y * i, b)
    ensures Equal((y * i) * (y * i) - (x * i) * (x * i), b * b - a * a)
  {
    CongMul(P, x * i, a, x * i, a);
    CongMul(P, y * i, b, y * i, b);
    CongSub(P, (y * i) * (y * i), b * b, (x * i) * (x * i), a * a);
  }

  lemma RightDivided(z: int, t: int, i: int, m: int)
    requires Equal(z * i, 1) && Equal(t * i, m)
    ensures Equal((z * i) * (z * i) + D * ((t * i) * (t * i)), 1 + D * (m * m))
  {
    CongMul(P, z * i, 1, z * i, 1);
    CongMul(P, t * i, m, t * i, m);
    Refl(D);
    CongMul(P, D, D, (t * i) * (t * i), m * m);
    CongAdd(P, (z * i) * (z * i), 1, D * ((t * i) * (t * i)), D * (m * m));
  }

  /** The affine coordinates of a good point are on the affine curve. */
  lemma AffineIsPoint(p: Ext)
    requires FieldInverses() && Good(p)
    ensures IsAffinePoint(Quotients(p))
  {
    var a, i := Quotients(p), Inv(p.z);
    var m := a.0 * a.1;
    OnCurveMeans(p);
    OnAffineMeans(a.0, a.1);
    Projective(p);
    ScaledEquation(p.x, p.y, p.z, p.t, i);
    Refl(i * i);
    CongMul(P, p.y * p.y - p.x * p.x, p.z * p.z + D * (p.t * p.t), i * i, i * i);
    LeftDivided(p.x, p.y, i, a.0, a.1);
    RightDivided(p.z, p.t, i, m);
    assert m * m == (a.0 * a.0) * (a.1 * a.1);
    var left, right := (p.y * i) * (p.y * i) - (p.x * i) * (p.x * i), (p.z * i) * (p.z * i) + D * ((p.t * i) * (p.t * i));
    CongSym(P, left, a.1 * a.1 - a.0 * a.0);
    CongTrans(P, a.1 * a.1 - a.0 * a.0, left, right);
    CongTrans(P, a.1 * a.1 - a.0 * a.0, right, 1 + D * (m * m));
  }

  lemma ScaledEquation(x: int, y: int, z: int, t: int, i: int)
    ensures (y * y - x * x) * (i * i) == (y * i) * (y * i) - (x * i) * (x * i)
    ensures (z * z + D * (t * t)) * (i * i) == (z * i) * (z * i) + D * ((t * i) * (t * i))
  {
    assert (z * i) * (z * i) == (z * z) * (i * i);
    assert (t * i) * (t * i) == (t * t) * (i * i);
    assert (D * (t * t)) * (i * i) == D * ((t * t) * (i * i));
    assert (z * z + D * (t * t)) * (i * i) == (z * z) * (i * i) + (D * (t * t)) * (i * i);
    assert (y * i) * (y * i) == (y * y) * (i * i);
    assert (x * i) * (x * i) == (x * x) * (i * i);
  }

  /** The four products of the addition law, divided by Z1 Z2. */
  lemma ScaledTerms(p: Ext, q: Ext)
    requires FieldInverses() && Good(p) && Good(q)
    ensures var a, b, w := Quotients(p), Quotients(q), Inv(p.z) * Inv(q.z);
      var k := Cross(a.0, a.1, b.0, b.1);
      && Equal((p.z * q.z + D * (p.t * q.t)) * w, 1 + k)
      && Equal((p.z * q.z - D * (p.t * q.t)) * w, 1 - k)
      && Equal((p.x * q.y + p.y * q.x) * w, a.0 * b.1 + a.1 * b.0)
      && Equal((p.y * q.y + p.x * q.x) * w, a.1 * b.1 + a.0 * b.0)
  {
    CrossMeans(Quotients(p).0, Quotients(p).1, Quotients(q).0, Quotients(q).1);
    Projective(p);
    Projective(q);
    var a, b, i, j := Quotients(p), Quotients(q), Inv(p.z), Inv(q.z);
    ProductScaled(p.z, q.z, i, j, 1, 1);
    ProductScaled(p.t, q.t, i, j, a.0 * a.1, b.0 * b.1);
    ProductScaled(p.x, q.y, i, j, a.0, b.1);
    ProductScaled(p.y, q.x, i, j, a.1, b.0);
    ProductScaled(p.y, q.y, i, j, a.1, b.1);
    ProductScaled(p.x, q.x, i, j, a.0, b.0);
    var w, t := i * j, (p.t * q.t) * (i * j);
    Refl(D);
    CongMul(P, D, D, t, (a.0 * a.1) * (b.0 * b.1));
    assert (a.0 * a.1) * (b.0 * b.1) == (a.0 * b.0) * (a.1 * b.1);
    var k := Cross(a.0, a.1, b.0, b.1);
    CongAdd(P, (p.z * q.z) * w, 1, D * t, k);
    CongSub(P, (p.z * q.z) * w, 1, D * t, k);
    CongAdd(P, (p.x * q.y) * w, a.0 * b.1, (p.y * q.x) * w, a.1 * b.0);
    CongAdd(P, (p.y * q.y) * w, a.1 * b.1, (p.x * q.x) * w, a.0 * b.0);
    SumsScaled(p.z * q.z, p.t * q.t, w);
    SumScaled(p.x * q.y, p.y * q.x, w);
    SumScaled(p.y * q.y, p.x * q.x, w);
  }

  lemma SumsScaled(z: int, t: int, w: int)
    ensures (z + D * t) * w == z * w + D * (t * w)
    ensures (z - D * t) * w == z * w - D * (t * w)
  {
    assert (D * t) * w == D * (t * w);
  }

  lemma SumScaled(a: int, b: int, w: int)
    ensures (a + b) * w == a * w + b * w
  {
  }

  lemma ProductScaled(x: int, y: int, i: int, j: int, a: int, b: int)
    requires Equal(x * i, a) && Equal(y * j, b)
    ensures Equal((x * y) * (i * j), a * b)
  {
    CongMul(P, x * i, a, y * j, b);
    assert (x * i) * (y * j) == (x * y) * (i * j);
  }

  lemma NotZeroScaled(g: int, w: int, k: int)
    requires Equal(g * w, k) && !Equal(k, 0)
    ensures !Equal(g, 0)
  {
    if Equal(g, 0) {
      ZeroTimes(g, w);
      CongSym(P, g * w, k);
      CongTrans(P, k, g * w, 0);
    }
  }

  /** The formulas compute the affine law, and never a point at infinity. */
  lemma AddRefinesAffine(p: Ext, q: Ext)
    requires FieldInverses() && NonSquare() && Good(p) && Good(q)
    ensures Good(EdAdd(p, q))
    ensures Quotients(EdAdd(p, q)) == AffineAdd(Quotients(p), Quotients(q))
  {
    var r, f := EdAdd(p, q), Formula(p, q);
    var a, b, w := Quotients(p), Quotients(q), Inv(p.z) * Inv(q.z);
    var k := Cross(a.0, a.1, b.0, b.1);
    EdAddDefinition(p, q);
    AffineAddDefinition(a, b);
    NormIsSame(f);
    SameIsSameNorm(r, f);
    SumStaysOnCurve(p, q, r);
    AdditionLaw(p, q, r);
    AffineIsPoint(p);
    AffineIsPoint(q);
    ScaledTerms(p, q);
    DenominatorsAreNonzero(a, b);
    var g, h := p.z * q.z + D * (p.t * q.t), p.z * q.z - D * (p.t * q.t);
    NotZeroScaled(g, w, 1 + k);
    NotZeroScaled(h, w, 1 - k);
    FormulaFactors(p, q, r);
    ZIsNonzero(r.z, g, h);
    Divided(r.x, r.z, g, p.x * q.y + p.y * q.x, w, 1 + k, a.0 * b.1 + a.1 * b.0);
    Divided(r.y, r.z, h, p.y * q.y + p.x * q.x, w, 1 - k, a.1 * b.1 + a.0 * b.0);
  }

  lemma DenominatorsAreNonzero(a: (int, int), b: (int, int))
    requires FieldInverses() && NonSquare() && OnAffine(a.0, a.1) && OnAffine(b.0, b.1)
    ensures var k := Cross(a.0, a.1, b.0, b.1); !Equal(1 + k, 0) && !Equal(1 - k, 0)
  {
    var k := Cross(a.0, a.1, b.0, b.1);
    CrossIsNoUnit(a.0, a.1, b.0, b.1, 1);
    CrossIsNoUnit(a.0, a.1, b.0, b.1, -1);
    if Equal(1 + k, 0) {
      var c := CongElim(P, 1 + k, 0);
      CongIntro(P, k, -1, c);
    }
    if Equal(1 - k, 0) {
      var c := CongElim(P, 1 - k, 0);
      CongIntro(P, k, 1, -c);
    }
  }

  lemma ZIsNonzero(z: int, g: int, h: int)
    requires FieldInverses() && Equal(z, 4 * (g * h)) && !Equal(g, 0) && !Equal(h, 0)
    ensures !Equal(z, 0)
  {
    if Equal(z, 0) {
      CongSym(P, z, 4 * (g * h));
      CongTrans(P, 4 * (g * h), z, 0);
      HalveZero(2 * (g * h));
      HalveZero(g * h);
      NoZeroDivisors(g, h);
    }
  }

  /** One affine coordinate of the sum. */
  lemma Divided(x: int, z: int, g: int, e: int, w: int, den: int, num: int)
    requires FieldInverses() && !Equal(z, 0) && !Equal(den, 0)
    requires Equal(x * g, z * e) && Equal(g * w, den) && Equal(e * w, num)
    ensures ProductMod(x, Inv(z)) == ProductMod(num, Inv(den))
  {
    Refl(w);
    Refl(x);
    Refl(z);
    CongMul(P, x * g, z * e, w, w);
    CongMul(P, x, x, g * w, den);
    CongMul(P, z, z, e * w, num);
    assert (x * g) * w == x * (g * w) && (z * e) * w == z * (e * w);
    CongSym(P, x * (g * w), x * den);
    CongTrans(P, x * den, x * (g * w), z * (e * w));
    CongTrans(P, x * den, z * (e * w), z * num);
    CrossCancel(x, z, num, den);
    ProductModOf(x, Inv(z), num * Inv(den));
    ProductModMeans(num, Inv(den));
  }
}
