/** Points of the twisted Edwards curve -x^2 + y^2 = 1 + d x^2 y^2 in extended coordinates. */
module Curve {
  import opened Words
  import opened Digits
  import opened Modular
  import opened Field

  /** d = -121665/121666, and the limbs of d and 2d. */
  const D_VALUE: int := 0x5203_6cee_2b6f_fe73_8cc7_4079_7779_e898_0070_0a4d_4141_d8ab_75eb_4dca_1359_78a3

  ghost const D: int := Sealed(D_VALUE)

  const D_LIMBS: seq<i64> := [
    0x78a3, 0x1359, 0x4dca, 0x75eb, 0xd8ab, 0x4141, 0x0a4d, 0x0070,
    0xe898, 0x7779, 0x4079, 0x8cc7, 0xfe73, 0x2b6f, 0x6cee, 0x5203]
  const D2_LIMBS: seq<i64> := [
    0xf159, 0x26b2, 0x9b94, 0xebd6, 0xb156, 0x8283, 0x149a, 0x00e0,
    0xd130, 0xeef3, 0x80f2, 0x198e, 0xfce7, 0x56df, 0xd9dc, 0x2406]

  /** Extended coordinates as field elements: x = X/Z, y = Y/Z, XY = ZT. */
  datatype Ext = Ext(x: int, y: int, z: int, t: int)

  const NEUTRAL: Ext := Ext(0, 1, 1, 0)

  /** The coordinates as canonical representatives. */
  function Norm(p: Ext): Ext
  {
    Ext(p.x % P, p.y % P, p.z % P, p.t % P)
  }

  ghost predicate Same(p: Ext, q: Ext)
  {
    Equal(p.x, q.x) && Equal(p.y, q.y) && Equal(p.z, q.z) && Equal(p.t, q.t)
  }

  lemma SameIsSameNorm(p: Ext, q: Ext)
    ensures Same(p, q) <==> Norm(p) == Norm(q)
  {
    CongIsSameMod(P, p.x, q.x);
    CongIsSameMod(P, p.y, q.y);
    CongIsSameMod(P, p.z, q.z);
    CongIsSameMod(P, p.t, q.t);
  }

  /** The addition formulas the code evaluates (section 5.1.4 of RFC 8032), over the integers. */
  ghost function Formula(p: Ext, q: Ext): Ext
  {
    var a := (p.y - p.x) * (q.y - q.x);
    var b := (p.x + p.y) * (q.x + q.y);
    var c := (p.t * q.t) * (2 * D);
    var d := 2 * (p.z * q.z);
    Ext((b - a) * (d - c), (b + a) * (d + c), (d + c) * (d - c), (b - a) * (b + a))
  }

  /** The sum as field elements. Kept folded: proofs use the lemma below when they need more
      than the name. */
  ghost function EdAdd(p: Ext, q: Ext): Ext
  {
    EdAddBy(Folds(), p, q)
  }

  ghost function EdAddBy(n: nat, p: Ext, q: Ext): Ext
  {
    if n == 0 then Norm(Formula(p, q)) else EdAddBy(n - 1, p, q)
  }

  lemma {:induction false} UnfoldEdAdd(n: nat, p: Ext, q: Ext)
    ensures EdAddBy(n, p, q) == Norm(Formula(p, q))
  {
    if n != 0 {
      UnfoldEdAdd(n - 1, p, q);
    }
  }

  lemma EdAddDefinition(p: Ext, q: Ext)
    ensures EdAdd(p, q) == Norm(Formula(p, q))
  {
    UnfoldEdAdd(Folds(), p, q);
  }

  // ------------------------------------------------------------------ memory

  const COORDINATE_LIMIT: int := 0x3_ffff

  /** gf p[4]: four field elements at distinct addresses. */
  class Point {
    const x: array<i64>
    const y: array<i64>
    const z: array<i64>
    const t: array<i64>

    constructor ()
      ensures Valid() && fresh(Repr())
      ensures Limbs()
    {
      x := new i64[16](_ => 0);
      y := new i64[16](_ => 0);
      z := new i64[16](_ => 0);
      t := new i64[16](_ => 0);
    }

    ghost predicate Valid()
    {
      && IsGf(x) && IsGf(y) && IsGf(z) && IsGf(t)
      && x != y && x != z && x != t && y != z && y != t && z != t
    }

    ghost function Repr(): set<object>
    {
      {x, y, z, t}
    }

    ghost predicate Limbs()
      reads x, y, z, t
    {
      && Within(x, COORDINATE_LIMIT) && Within(y, COORDINATE_LIMIT)
      && Within(z, COORDINATE_LIMIT) && Within(t, COORDINATE_LIMIT)
    }

    /** The integers the limbs stand for. */
    ghost function Raw(): Ext
      requires Valid()
      reads x, y, z, t
    {
      Ext(V(x), V(y), V(z), V(t))
    }

    /** The point as field elements. */
    ghost function Abs(): Ext
      requires Valid()
      reads x, y, z, t
    {
      Norm(Raw())
    }
  }

  /** A static table of limbs. */
  method Constant(s: seq<i64>) returns (a: array<i64>)
    requires |s| == 16
    ensures fresh(a) && a[..] == s && IsGf(a)
  {
    a := new i64[16](k requires 0 <= k < 16 => s[k]);
  }

  lemma D2Value()
    ensures |D2_LIMBS| == 16 && Range(D2_LIMBS, 16, 0, 65535)
    ensures Equal(Value(D2_LIMBS), 2 * D)
  {
    SealedValue(D_VALUE);
    DoubledLimbs();
    CongIntro(P, Value(D2_LIMBS), 2 * D, -1);
  }

  lemma DoubledLimbs()
    ensures Value(D2_LIMBS) == 2 * D_VALUE - P
  {
    LimbsValue(D2_LIMBS);
  }

  lemma LimbsValue(s: seq<int>)
    requires |s| == 16
    ensures Value(s) == s[0] + 0x1_0000 * (s[1] + 0x1_0000 * (s[2] + 0x1_0000 * s[3]))
      + 0x1_0000_0000_0000_0000 * (s[4] + 0x1_0000 * (s[5] + 0x1_0000 * (s[6] + 0x1_0000 * s[7]))
      + 0x1_0000_0000_0000_0000 * (s[8] + 0x1_0000 * (s[9] + 0x1_0000 * (s[10] + 0x1_0000 * s[11]))
      + 0x1_0000_0000_0000_0000 * (s[12] + 0x1_0000 * (s[13] + 0x1_0000 * (s[14] + 0x1_0000 * s[15])))))
  {
    var b := RADIX;
    EvalFour(s, b, 0);
    EvalFour(s, b, 4);
    EvalFour(s, b, 8);
    EvalFour(s, b, 12);
    PowAdd(b, 4, 4);
    PowAdd(b, 8, 4);
    assert Pow(b, 4) == 0x1_0000_0000_0000_0000;
  }

  /** A chain of two products. */
  lemma ProductOf(r: int, u: int, v: int, a: int, b: int)
    requires Equal(r, u * v) && Equal(u, a) && Equal(v, b)
    ensures Equal(r, a * b)
  {
    CongMul(P, u, a, v, b);
    CongTrans(P, r, u * v, a * b);
  }

  /** The product of the differences of the affine coordinates. */
  method DifferenceProduct(p: Point, q: Point) returns (a: array<i64>)
    requires p.Valid() && q.Valid() && p.Limbs() && q.Limbs()
    ensures fresh(a) && IsGf(a) && Within(a, TIGHT)
    ensures Equal(V(a), (V(p.y) - V(p.x)) * (V(q.y) - V(q.x)))
  {
    a := new i64[16](_ => 0);
    var t := new i64[16](_ => 0);
    Z(a, p.y, p.x, COORDINATE_LIMIT);
    Z(t, q.y, q.x, COORDINATE_LIMIT);
    M(a, a, t);
  }

  /** The product of their sums. */
  method SumProduct(p: Point, q: Point) returns (b: array<i64>)
    requires p.Valid() && q.Valid() && p.Limbs() && q.Limbs()
    ensures fresh(b) && IsGf(b) && Within(b, TIGHT)
    ensures Equal(V(b), (V(p.x) + V(p.y)) * (V(q.x) + V(q.y)))
  {
    b := new i64[16](_ => 0);
    var t := new i64[16](_ => 0);
    A(b, p.x, p.y, COORDINATE_LIMIT);
    A(t, q.x, q.y, COORDINATE_LIMIT);
    M(b, b, t);
  }

  method CrossProducts(p: Point, q: Point) returns (a: array<i64>, b: array<i64>)
    requires p.Valid() && q.Valid() && p.Limbs() && q.Limbs()
    ensures fresh(a) && fresh(b) && a != b && IsGf(a) && IsGf(b)
    ensures Within(a, TIGHT) && Within(b, TIGHT)
    ensures var u, w := p.Raw(), q.Raw();
      && Equal(V(a), (u.y - u.x) * (w.y - w.x))
      && Equal(V(b), (u.x + u.y) * (w.x + w.y))
  {
    a := DifferenceProduct(p, q);
    b := SumProduct(p, q);
  }

  /** 2 d T1 T2 */
  method ScaledT(p: Point, q: Point) returns (c: array<i64>)
    requires p.Valid() && q.Valid() && p.Limbs() && q.Limbs()
    ensures fresh(c) && IsGf(c) && Within(c, TIGHT)
    ensures Equal(V(c), (V(p.t) * V(q.t)) * (2 * D))
  {
    c := new i64[16](_ => 0);
    var d2 := Constant(D2_LIMBS);
    D2Value();
    M(c, p.t, q.t);
    ghost var tt := V(c);
    M(c, c, d2);
    ProductOf(V(c), tt, V(d2), V(p.t) * V(q.t), 2 * D);
  }

  /** 2 Z1 Z2 */
  method DoubledZ(p: Point, q: Point) returns (d: array<i64>)
    requires p.Valid() && q.Valid() && p.Limbs() && q.Limbs()
    ensures fresh(d) && IsGf(d) && Within(d, 2 * TIGHT)
    ensures Equal(V(d), 2 * (V(p.z) * V(q.z)))
  {
    d := new i64[16](_ => 0);
    M(d, p.z, q.z);
    ghost var zz := V(d);
    A(d, d, d, TIGHT);
    CongAdd(P, zz, V(p.z) * V(q.z), zz, V(p.z) * V(q.z));
  }

  method ScaledProducts(p: Point, q: Point) returns (c: array<i64>, d: array<i64>)
    requires p.Valid() && q.Valid() && p.Limbs() && q.Limbs()
    ensures fresh(c) && fresh(d) && c != d && IsGf(c) && IsGf(d)
    ensures Within(c, 2 * TIGHT) && Within(d, 2 * TIGHT)
    ensures var u, w := p.Raw(), q.Raw();
      && Equal(V(c), (u.t * w.t) * (2 * D))
      && Equal(V(d), 2 * (u.z * w.z))
  {
    c := ScaledT(p, q);
    d := DoubledZ(p, q);
  }

  /** The differences and sums of the four products. */
  method Combine(a: array<i64>, b: array<i64>, c: array<i64>, d: array<i64>)
    returns (e: array<i64>, f: array<i64>, g: array<i64>, h: array<i64>)
    requires IsGf(a) && IsGf(b) && IsGf(c) && IsGf(d)
    requires Within(a, 2 * TIGHT) && Within(b, 2 * TIGHT) && Within(c, 2 * TIGHT) && Within(d, 2 * TIGHT)
    ensures fresh({e, f, g, h}) && IsGf(e) && IsGf(f) && IsGf(g) && IsGf(h)
    ensures Within(e, 4 * TIGHT) && Within(f, 4 * TIGHT) && Within(g, 4 * TIGHT) && Within(h, 4 * TIGHT)
    ensures V(e) == V(b) - V(a) && V(f) == V(d) - V(c) && V(g) == V(d) + V(c) && V(h) == V(b) + V(a)
  {
    e, f := new i64[16](_ => 0), new i64[16](_ => 0);
    Z(e, b, a, 2 * TIGHT);
    Z(f, d, c, 2 * TIGHT);
    g := new i64[16](_ => 0);
    A(g, d, c, 2 * TIGHT);
    h := new i64[16](_ => 0);
    A(h, b, a, 2 * TIGHT);
  }

  /** The four coordinates of the sum. */
  method Multiply(p: Point, e: array<i64>, f: array<i64>, g: array<i64>, h: array<i64>)
    requires p.Valid() && IsGf(e) && IsGf(f) && IsGf(g) && IsGf(h)
    requires p.Repr() !! {e, f, g, h}
    requires Within(e, FACTOR_LIMIT) && Within(f, FACTOR_LIMIT) && Within(g, FACTOR_LIMIT) && Within(h, FACTOR_LIMIT)
    modifies p.x, p.y, p.z, p.t
    ensures p.Limbs()
    ensures Same(p.Raw(), Ext(V(e) * V(f), V(h) * V(g), V(g) * V(f), V(e) * V(h)))
  {
    M(p.x, e, f);
    M(p.y, h, g);
    M(p.z, g, f);
    M(p.t, e, h);
  }

  lemma FormulaOf(r: Ext, u: Ext, w: Ext, a: int, b: int, c: int, d: int)
    requires Same(r, Ext((b - a) * (d - c), (b + a) * (d + c), (d + c) * (d - c), (b - a) * (b + a)))
    requires Equal(a, (u.y - u.x) * (w.y - w.x)) && Equal(b, (u.x + u.y) * (w.x + w.y))
    requires Equal(c, (u.t * w.t) * (2 * D)) && Equal(d, 2 * (u.z * w.z))
    ensures Same(r, Formula(u, w))
  {
    var a', b' := (u.y - u.x) * (w.y - w.x), (u.x + u.y) * (w.x + w.y);
    var c', d' := (u.t * w.t) * (2 * D), 2 * (u.z * w.z);
    CongSub(P, b, b', a, a');
    CongAdd(P, b, b', a, a');
    CongSub(P, d, d', c, c');
    CongAdd(P, d, d', c, c');
    ProductOf(r.x, b - a, d - c, b' - a', d' - c');
    ProductOf(r.y, b + a, d + c, b' + a', d' + c');
    ProductOf(r.z, d + c, d - c, d' + c', d' - c');
    ProductOf(r.t, b - a, b + a, b' - a', b' + a');
  }

  /** Adds q to p in place; p and q may be the same point. */
  method Add(p: Point, q: Point)
    requires p.Valid() && q.Valid() && p.Limbs() && q.Limbs()
    requires p == q || p.Repr() !! q.Repr()
    modifies p.x, p.y, p.z, p.t
    ensures p.Limbs()
    ensures p.Abs() == EdAdd(old(p.Abs()), old(q.Abs()))
  {
    ghost var u, w := p.Raw(), q.Raw();
    var a, b := CrossProducts(p, q);
    var c, d := ScaledProducts(p, q);
    var e, f, g, h := Combine(a, b, c, d);
    ghost var x, y, z, t := V(a), V(b), V(c), V(d);
    Multiply(p, e, f, g, h);
    FormulaOf(p.Raw(), u, w, x, y, z, t);
    SameIsSameNorm(p.Raw(), Formula(u, w));
    EdAddDefinition(u, w);
    EdAddNorm(u, w);
  }

  /** Congruent operands have the same sum. */
  lemma FormulaCong(p: Ext, q: Ext, r: Ext, s: Ext)
    requires Same(p, r) && Same(q, s)
    ensures Same(Formula(p, q), Formula(r, s))
  {
    CongSub(P, p.y, r.y, p.x, r.x);
    CongSub(P, q.y, s.y, q.x, s.x);
    CongAdd(P, p.x, r.x, p.y, r.y);
    CongAdd(P, q.x, s.x, q.y, s.y);
    var a, a' := (p.y - p.x) * (q.y - q.x), (r.y - r.x) * (s.y - s.x);
    var b, b' := (p.x + p.y) * (q.x + q.y), (r.x + r.y) * (s.x + s.y);
    var c, c' := (p.t * q.t) * (2 * D), (r.t * s.t) * (2 * D);
    var d, d' := 2 * (p.z * q.z), 2 * (r.z * s.z);
    CongMul(P, p.y - p.x, r.y - r.x, q.y - q.x, s.y - s.x);
    CongMul(P, p.x + p.y, r.x + r.y, q.x + q.y, s.x + s.y);
    CongMul(P, p.t, r.t, q.t, s.t);
    CongMul(P, p.t * q.t, r.t * s.t, 2 * D, 2 * D);
    CongMul(P, p.z, r.z, q.z, s.z);
    CongMul(P, 2, 2, p.z * q.z, r.z * s.z);
    CongSub(P, b, b', a, a');
    CongAdd(P, b, b', a, a');
    CongSub(P, d, d', c, c');
    CongAdd(P, d, d', c, c');
    CongMul(P, b - a, b' - a', d - c, d' - c');
    CongMul(P, b + a, b' + a', d + c, d' + c');
    CongMul(P, d + c, d' + c', d - c, d' - c');
    CongMul(P, b - a, b' - a', b + a, b' + a');
  }

  lemma NormIsSame(p: Ext)
    ensures Same(p, Norm(p)) && Norm(Norm(p)) == Norm(p)
  {
    CongMod(P, p.x);
    CongMod(P, p.y);
    CongMod(P, p.z);
    CongMod(P, p.t);
  }

  lemma EdAddNorm(p: Ext, q: Ext)
    ensures EdAdd(Norm(p), Norm(q)) == EdAdd(p, q)
  {
    NormIsSame(p);
    NormIsSame(q);
    FormulaCong(p, q, Norm(p), Norm(q));
    SameIsSameNorm(Formula(p, q), Formula(Norm(p), Norm(q)));
    EdAddDefinition(p, q);
    EdAddDefinition(Norm(p), Norm(q));
  }

  method Cswap(p: Point, q: Point, b: int)
    requires p.Valid() && q.Valid() && p.Repr() !! q.Repr() && 0 <= b <= 1
    requires p.Limbs() && q.Limbs()
    modifies p.x, p.y, p.z, p.t, q.x, q.y, q.z, q.t
    ensures p.Limbs() && q.Limbs()
    ensures p.Raw() == (if b == 1 then old(q.Raw()) else old(p.Raw()))
    ensures q.Raw() == (if b == 1 then old(p.Raw()) else old(q.Raw()))
  {
    Sel25519(p.x, q.x, b);
    Sel25519(p.y, q.y, b);
    Sel25519(p.z, q.z, b);
    Sel25519(p.t, q.t, b);
  }
}
