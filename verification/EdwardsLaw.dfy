/** What the addition formulas mean: the twisted Edwards law, and that it never leaves the curve. */
module EdwardsLaw {
  import opened Modular
  import opened Field
  import opened Curve

  /** On the curve in extended coordinates: -X^2 + Y^2 = Z^2 + d T^2 and XY = ZT. */
  ghost predicate IsCurvePoint(x: int, y: int, z: int, t: int)
  {
    && Equal(y * y - x * x, z * z + D * (t * t))
    && Equal(x * y, z * t)
  }

  /** The same of a point, kept folded. */
  ghost predicate OnCurve(p: Ext)
  {
    OnCurveBy(Folds(), p)
  }

  ghost predicate OnCurveBy(n: nat, p: Ext)
  {
    if n == 0 then IsCurvePoint(p.x, p.y, p.z, p.t) else OnCurveBy(n - 1, p)
  }

  lemma {:induction false} UnfoldOnCurve(n: nat, p: Ext)
    ensures OnCurveBy(n, p) <==> IsCurvePoint(p.x, p.y, p.z, p.t)
  {
    if n != 0 {
      UnfoldOnCurve(n - 1, p);
    }
  }

  lemma OnCurveMeans(p: Ext)
    ensures OnCurve(p) <==> IsCurvePoint(p.x, p.y, p.z, p.t)
  {
    UnfoldOnCurve(Folds(), p);
  }

  /** The sum's coordinates as products of the law's four terms. */
  ghost function Factored(p: Ext, q: Ext): Ext
  {
    var e, h := p.x * q.y + p.y * q.x, p.y * q.y + p.x * q.x;
    var f, g := p.z * q.z - D * (p.t * q.t), p.z * q.z + D * (p.t * q.t);
    Ext(4 * (e * f), 4 * (h * g), 4 * (g * f), 4 * (e * h))
  }

  lemma FormulaFactors(p: Ext, q: Ext, r: Ext)
    requires Same(r, Formula(p, q))
    ensures Same(r, Factored(p, q))
  {
    var a, b := (p.y - p.x) * (q.y - q.x), (p.x + p.y) * (q.x + q.y);
    var e, h := p.x * q.y + p.y * q.x, p.y * q.y + p.x * q.x;
    var z, c := p.z * q.z, D * (p.t * q.t);
    Expand(p.x, p.y, q.x, q.y);
    assert (p.t * q.t) * (2 * D) == 2 * c;
    TwiceTwice(e, z - c);
    TwiceTwice(h, z + c);
    TwiceTwice(z + c, z - c);
    TwiceTwice(e, h);
    FormulaOfTerms(p, q, a, b, 2 * c, 2 * z);
  }

  lemma FormulaOfTerms(p: Ext, q: Ext, a: int, b: int, c: int, d: int)
    requires a == (p.y - p.x) * (q.y - q.x) && b == (p.x + p.y) * (q.x + q.y)
    requires c == (p.t * q.t) * (2 * D) && d == 2 * (p.z * q.z)
    ensures Formula(p, q) == Ext((b - a) * (d - c), (b + a) * (d + c), (d + c) * (d - c), (b - a) * (b + a))
  {
  }

  lemma Expand(x: int, y: int, u: int, v: int)
    ensures (x + y) * (u + v) - (y - x) * (v - u) == 2 * (x * v + y * u)
    ensures (x + y) * (u + v) + (y - x) * (v - u) == 2 * (y * v + x * u)
  {
  }

  lemma TwiceTwice(x: int, y: int)
    ensures (2 * x) * (2 * y) == 4 * (x * y)
  {
  }

  /** The sum satisfies the addition law of the curve, whatever the operands are:
      x3 (Z1 Z2 + d T1 T2) = X1 Y2 + Y1 X2 and y3 (Z1 Z2 - d T1 T2) = Y1 Y2 + X1 X2, and the
      fourth coordinate is consistent. */
  lemma AdditionLaw(p: Ext, q: Ext, r: Ext)
    requires Same(r, Formula(p, q))
    ensures Equal(r.x * (p.z * q.z + D * (p.t * q.t)), r.z * (p.x * q.y + p.y * q.x))
    ensures Equal(r.y * (p.z * q.z - D * (p.t * q.t)), r.z * (p.y * q.y + p.x * q.x))
    ensures Equal(r.x * r.y, r.z * r.t)
  {
    var e, h := p.x * q.y + p.y * q.x, p.y * q.y + p.x * q.x;
    var f, g := p.z * q.z - D * (p.t * q.t), p.z * q.z + D * (p.t * q.t);
    FormulaFactors(p, q, r);
    var s := Factored(p, q);
    ThreeFactors(e, f, g);
    Crosswise(r.x, r.z, s.x, s.z, g, e);
    ThreeFactors(h, g, f);
    assert g * f == f * g;
    Crosswise(r.y, r.z, s.y, s.z, f, h);
    CongMul(P, r.x, s.x, r.y, s.y);
    CongMul(P, r.z, s.z, r.t, s.t);
    FourFactors(e, f, g, h);
    CongSym(P, r.z * r.t, s.z * s.t);
    CongTrans(P, r.x * r.y, s.x * s.y, r.z * r.t);
  }

  lemma ThreeFactors(e: int, f: int, g: int)
    ensures (4 * (e * f)) * g == (4 * (g * f)) * e
  {
  }

  lemma FourFactors(e: int, f: int, g: int, h: int)
    ensures (4 * (e * f)) * (4 * (h * g)) == (4 * (g * f)) * (4 * (e * h))
  {
  }

  lemma Crosswise(r: int, s: int, u: int, v: int, g: int, e: int)
    requires Equal(r, u) && Equal(s, v) && u * g == v * e
    ensures Equal(r * g, s * e)
  {
    CongMul(P, r, u, g, g);
    CongMul(P, s, v, e, e);
    CongSym(P, s * e, v * e);
    CongTrans(P, r * g, u * g, s * e);
  }

  // ------------------------------------------------------------------ closure

  /** Exact identities between the un-doubled products. */
  lemma SumsOfSquares(x: int, y: int, u: int, v: int)
    ensures var e, h := x * v + y * u, y * v + x * u;
      && h * h - e * e == (y * y - x * x) * (v * v - u * u)
      && h * h + e * e == (y * y + x * x) * (v * v + u * u) + 4 * ((x * y) * (u * v))
      && e * h == (x * y) * (v * v + u * u) + (u * v) * (y * y + x * x)
  {
  }

  lemma ProductsOfSquares(z: int, t: int, w: int, s: int)
    ensures var f, g := z * w - D * (t * s), z * w + D * (t * s);
      var n, m := (z * t) * (w * s), (z * z) * (w * w) - (D * (t * t)) * (D * (s * s));
      && g * g - f * f == 4 * (D * n)
      && f * g == m
      && g * g + f * f == 2 * ((z * z) * (w * w) + (D * (t * t)) * (D * (s * s)))
  {
    var a, b := z * w, D * (t * s);
    ThreeSquares(a, b);
    MixedProduct(z, t, w, s, D);
    assert a * a == (z * z) * (w * w);
  }

  lemma ThreeSquares(a: int, b: int)
    ensures (a + b) * (a + b) - (a - b) * (a - b) == 4 * (a * b)
    ensures (a - b) * (a + b) == a * a - b * b
    ensures (a + b) * (a + b) + (a - b) * (a - b) == 2 * (a * a + b * b)
  {
  }

  lemma MixedProduct(z: int, t: int, w: int, s: int, d: int)
    ensures (z * w) * (d * (t * s)) == d * ((z * t) * (w * s))
    ensures (d * (t * s)) * (d * (t * s)) == (d * (t * t)) * (d * (s * s))
  {
    ScaledSquares(t, s, d);
    assert (z * w) * (t * s) == (z * t) * (w * s);
    assert (z * w) * (d * (t * s)) == d * ((z * w) * (t * s));
  }

  lemma ScaledSquares(t: int, s: int, d: int)
    ensures (d * (t * s)) * (d * (t * s)) == (d * (t * t)) * (d * (s * s))
  {
    var x, y := t * t, s * s;
    assert (t * s) * (t * s) == x * y;
    assert (d * (t * s)) * (d * (t * s)) == (d * d) * ((t * s) * (t * s));
    assert (d * x) * (d * y) == (d * d) * (x * y);
  }

  /** The two sides of the curve equation of a sum, by what the operands contribute: for each
      the difference a and the product m of the affine coordinates; s collects the sums. */
  ghost function Left(sum: int, n: int, s: int, a: int, b: int, m: int, k: int): int
  {
    sum * (a * b) + 2 * (n * (s + 4 * (m * k)))
  }

  ghost function Right(diff: int, s: int, a: int, b: int, m: int, k: int): int
  {
    diff * diff + D * ((m * m) * (b * b + 4 * (k * k)) + (k * k) * (a * a + 4 * (m * m)) + 2 * ((m * k) * s))
  }

  lemma LeftCong(sum: int, n: int, s: int, a: int, b: int, m: int, k: int, a': int, b': int, m': int, k': int)
    requires Equal(a, a') && Equal(b, b') && Equal(m, m') && Equal(k, k')
    ensures Equal(Left(sum, n, s, a, b, m, k), Left(sum, n, s, a', b', m', k'))
  {
    CongMul(P, a, a', b, b');
    CongMul(P, sum, sum, a * b, a' * b');
    CongMul(P, m, m', k, k');
    CongMul(P, 4, 4, m * k, m' * k');
    CongAdd(P, s, s, 4 * (m * k), 4 * (m' * k'));
    CongMul(P, n, n, s + 4 * (m * k), s + 4 * (m' * k'));
    CongMul(P, 2, 2, n * (s + 4 * (m * k)), n * (s + 4 * (m' * k')));
    CongAdd(P, sum * (a * b), sum * (a' * b'), 2 * (n * (s + 4 * (m * k))), 2 * (n * (s + 4 * (m' * k'))));
  }

  lemma HalfCong(b: int, m: int, k: int, b': int, m': int, k': int)
    requires Equal(b, b') && Equal(m, m') && Equal(k, k')
    ensures Equal((m * m) * (b * b + 4 * (k * k)), (m' * m') * (b' * b' + 4 * (k' * k')))
  {
    CongMul(P, m, m', m, m');
    CongMul(P, b, b', b, b');
    CongMul(P, k, k', k, k');
    CongMul(P, 4, 4, k * k, k' * k');
    CongAdd(P, b * b, b' * b', 4 * (k * k), 4 * (k' * k'));
    CongMul(P, m * m, m' * m', b * b + 4 * (k * k), b' * b' + 4 * (k' * k'));
  }

  lemma RightCong(diff: int, s: int, a: int, b: int, m: int, k: int, a': int, b': int, m': int, k': int)
    requires Equal(a, a') && Equal(b, b') && Equal(m, m') && Equal(k, k')
    ensures Equal(Right(diff, s, a, b, m, k), Right(diff, s, a', b', m', k'))
  {
    HalfCong(b, m, k, b', m', k');
    HalfCong(a, k, m, a', k', m');
    var x, y, z := (m * m) * (b * b + 4 * (k * k)), (k * k) * (a * a + 4 * (m * m)), (m * k) * s;
    var x', y', z' := (m' * m') * (b' * b' + 4 * (k' * k')), (k' * k') * (a' * a' + 4 * (m' * m')), (m' * k') * s;
    CongMul(P, m, m', k, k');
    CongMul(P, m * k, m' * k', s, s);
    CongMul(P, 2, 2, z, z');
    CongAdd(P, x, x', y, y');
    CongAdd(P, x + y, x' + y', 2 * z, 2 * z');
    CongMul(P, D, D, x + y + 2 * z, x' + y' + 2 * z');
    CongAdd(P, diff * diff, diff * diff, D * (x + y + 2 * z), D * (x' + y' + 2 * z'));
  }

  /** With a = u + v and d m^2 = u v on both operands, the two sides are one polynomial. */
  lemma SidesMeet(u: int, v: int, w: int, x: int, m: int, k: int, s: int)
    requires D * (m * m) == u * v && D * (k * k) == w * x
    ensures Left(u * w + v * x, D * (m * k), s, u + v, w + x, m, k)
         == Right(u * w - v * x, s, u + v, w + x, m, k)
  {
    var mm, kk := m * m, k * k;
    var b, c := w + x, u + v;
    assert D * (mm * (b * b + 4 * kk)) == (u * v) * (b * b) + 4 * (D * (mm * kk)) by {
      Associate(D, mm, b * b, kk);
    }
    assert D * (kk * (c * c + 4 * mm)) == (w * x) * (c * c) + 4 * (D * (mm * kk)) by {
      Associate(D, kk, c * c, mm);
      assert kk * mm == mm * kk;
    }
    assert (m * k) * (m * k) == mm * kk;
    SpreadLeft(D, m * k, s);
    SpreadRight(D, mm * (b * b + 4 * kk), kk * (c * c + 4 * mm), m * k, s);
    Binomials(u, v, w, x);
  }

  lemma Associate(d: int, m: int, b: int, k: int)
    ensures d * (m * (b + 4 * k)) == (d * m) * b + 4 * (d * (m * k))
  {
  }

  lemma SpreadLeft(d: int, n: int, s: int)
    ensures 2 * ((d * n) * (s + 4 * n)) == 2 * (d * (n * s)) + 8 * (d * (n * n))
  {
  }

  lemma SpreadRight(d: int, x: int, y: int, n: int, s: int)
    ensures d * (x + y + 2 * (n * s)) == d * x + d * y + 2 * (d * (n * s))
  {
  }

  lemma Binomials(u: int, v: int, w: int, x: int)
    ensures (u * w + v * x) * ((u + v) * (w + x))
         == (u * w - v * x) * (u * w - v * x) + (u * v) * ((w + x) * (w + x)) + (w * x) * ((u + v) * (u + v))
  {
  }

  lemma LeftSide(e: int, f: int, g: int, h: int, sum: int, n: int, s: int, a: int, b: int, m: int, k: int)
    requires h * h - e * e == a * b && h * h + e * e == s + 4 * (m * k)
    requires g * g - f * f == 4 * n && g * g + f * f == 2 * sum
    ensures (4 * (h * g)) * (4 * (h * g)) - (4 * (e * f)) * (4 * (e * f)) == 16 * Left(sum, n, s, a, b, m, k)
  {
    var ee, ff, gg, hh := e * e, f * f, g * g, h * h;
    assert (4 * (h * g)) * (4 * (h * g)) == 16 * (hh * gg);
    assert (4 * (e * f)) * (4 * (e * f)) == 16 * (ee * ff);
    assert 2 * (hh * gg - ee * ff) == (gg + ff) * (hh - ee) + (gg - ff) * (hh + ee);
    assert (2 * sum) * (a * b) == 2 * (sum * (a * b));
    assert (4 * n) * (s + 4 * (m * k)) == 4 * (n * (s + 4 * (m * k)));
  }

  lemma RightSide(e: int, f: int, g: int, h: int, diff: int, s: int, x: int, y: int, u: int, v: int)
    requires f * g == diff && s == (y * y + x * x) * (v * v + u * u)
    requires e * h == (x * y) * (v * v + u * u) + (u * v) * (y * y + x * x)
    ensures (4 * (g * f)) * (4 * (g * f)) + D * ((4 * (e * h)) * (4 * (e * h)))
         == 16 * Right(diff, s, y * y - x * x, v * v - u * u, x * y, u * v)
  {
    var m, k, c, b := x * y, u * v, y * y + x * x, v * v + u * u;
    SquareOfSum(x, y);
    SquareOfSum(u, v);
    SquareOfMixed(m, k, c, b);
    var w := e * h;
    assert w * w == (m * m) * (b * b) + (k * k) * (c * c) + 2 * ((m * k) * s);
    assert (4 * (g * f)) * (4 * (g * f)) == 16 * (diff * diff);
    assert D * ((4 * w) * (4 * w)) == 16 * (D * (w * w));
  }

  lemma SquareOfSum(x: int, y: int)
    ensures (y * y + x * x) * (y * y + x * x) == (y * y - x * x) * (y * y - x * x) + 4 * ((x * y) * (x * y))
  {
  }

  lemma SquareOfMixed(m: int, k: int, c: int, b: int)
    ensures (m * b + k * c) * (m * b + k * c) == (m * m) * (b * b) + (k * k) * (c * c) + 2 * ((m * k) * (c * b))
  {
  }

  /** The formulas never leave the curve: no hypothesis on d or on P is needed. */
  lemma SumStaysOnCurve(p: Ext, q: Ext, r: Ext)
    requires OnCurve(p) && OnCurve(q) && Same(r, Formula(p, q))
    ensures OnCurve(r)
  {
    OnCurveMeans(p);
    OnCurveMeans(q);
    OnCurveMeans(r);
    var e, h := p.x * q.y + p.y * q.x, p.y * q.y + p.x * q.x;
    var f, g := p.z * q.z - D * (p.t * q.t), p.z * q.z + D * (p.t * q.t);
    FormulaFactors(p, q, r);
    SumsOfSquares(p.x, p.y, q.x, q.y);
    ProductsOfSquares(p.z, p.t, q.z, q.t);
    var a, b, m, k := p.y * p.y - p.x * p.x, q.y * q.y - q.x * q.x, p.x * p.y, q.x * q.y;
    var s := (p.y * p.y + p.x * p.x) * (q.y * q.y + q.x * q.x);
    var u, v, w, x := p.z * p.z, D * (p.t * p.t), q.z * q.z, D * (q.t * q.t);
    var i, j := p.z * p.t, q.z * q.t;
    LeftSide(e, f, g, h, u * w + v * x, D * (i * j), s, a, b, m, k);
    RightSide(e, f, g, h, u * w - v * x, s, p.x, p.y, q.x, q.y);
    LeftCong(u * w + v * x, D * (i * j), s, a, b, m, k, u + v, w + x, i, j);
    RightCong(u * w - v * x, s, a, b, m, k, u + v, w + x, i, j);
    SquareOfProduct(p.z, p.t);
    SquareOfProduct(q.z, q.t);
    SidesMeet(u, v, w, x, i, j, s);
    var left, right := Left(u * w + v * x, D * (i * j), s, a, b, m, k), Right(u * w - v * x, s, a, b, m, k);
    var meet := Left(u * w + v * x, D * (i * j), s, u + v, w + x, i, j);
    CongSym(P, right, meet);
    CongTrans(P, left, meet, right);
    CongMul(P, 16, 16, left, right);
    TransferCurve(r, Factored(p, q));
    AdditionLaw(p, q, r);
  }

  lemma SquareOfProduct(z: int, t: int)
    ensures D * ((z * t) * (z * t)) == (z * z) * (D * (t * t))
  {
  }

  /** The curve equation passes to congruent coordinates. */
  lemma TransferCurve(r: Ext, s: Ext)
    requires Same(r, s)
    requires Equal(s.y * s.y - s.x * s.x, s.z * s.z + D * (s.t * s.t))
    ensures Equal(r.y * r.y - r.x * r.x, r.z * r.z + D * (r.t * r.t))
  {
    CongMul(P, r.x, s.x, r.x, s.x);
    CongMul(P, r.y, s.y, r.y, s.y);
    CongMul(P, r.z, s.z, r.z, s.z);
    CongMul(P, r.t, s.t, r.t, s.t);
    CongMul(P, D, D, r.t * r.t, s.t * s.t);
    CongSub(P, r.y * r.y, s.y * s.y, r.x * r.x, s.x * s.x);
    CongAdd(P, r.z * r.z, s.z * s.z, D * (r.t * r.t), D * (s.t * s.t));
    var a, b := s.y * s.y - s.x * s.x, s.z * s.z + D * (s.t * s.t);
    CongSym(P, r.z * r.z + D * (r.t * r.t), b);
    CongTrans(P, r.y * r.y - r.x * r.x, a, b);
    CongTrans(P, r.y * r.y - r.x * r.x, b, r.z * r.z + D * (r.t * r.t));
  }
}
