/** Scalar multiplication by a fixed sequence of conditional swaps and additions. */
module Ladder {
  import opened Words
  import opened Digits
  import opened LittleEndian
  import opened Modular
  import opened Bits
  import opened Field
  import opened FieldPower
  import opened Curve
  import Scalar

  const X_LIMBS: seq<i64> := [
    0xd51a, 0x8f25, 0x2d60, 0xc956, 0xa7b2, 0x9525, 0xc760, 0x692c,
    0xdc5c, 0xfdd6, 0xe231, 0xc0a4, 0x53fe, 0xcd6e, 0x36d3, 0x2169]
  const Y_LIMBS: seq<i64> := [
    0x6658, 0x6666, 0x6666, 0x6666, 0x6666, 0x6666, 0x6666, 0x6666,
    0x6666, 0x6666, 0x6666, 0x6666, 0x6666, 0x6666, 0x6666, 0x6666]
  const ONE_LIMBS: seq<i64> := [1, 0, 0, 0, 0, 0, 0, 0, 0, 0, 0, 0, 0, 0, 0, 0]
  const ZERO_LIMBS: seq<i64> := [0, 0, 0, 0, 0, 0, 0, 0, 0, 0, 0, 0, 0, 0, 0, 0]

  /** The base point of section 5.1 of RFC 8032. */
  const BASE_X: int := 0x2169_36d3_cd6e_53fe_c0a4_e231_fdd6_dc5c_692c_c760_9525_a7b2_c956_2d60_8f25_d51a
  const BASE_Y: int := 0x6666_6666_6666_6666_6666_6666_6666_6666_6666_6666_6666_6666_6666_6666_6666_6658

  const BASE_POINT: Ext := Norm(Ext(BASE_X, BASE_Y, 1, BASE_X * BASE_Y))

  /** Bit i of a little-endian scalar. */
  function Bit(s: seq<u8>, i: nat): (bit: int)
    requires i < 8 * |s|
    ensures 0 <= bit <= 1
  {
    BitOf(s[i / 8], i % 8)
  }

  const INDEX: nat := 9  // wide enough for a bit number below 256

  /** One rung: both registers move up by the bit taken. */
  ghost function Rung(p: Ext, q: Ext, bit: int): (Ext, Ext)
  {
    if bit == 1 then (EdAdd(p, q), EdAdd(q, q)) else (EdAdd(p, p), EdAdd(q, p))
  }

  /** The two registers once the bits from the top down to i are taken. */
  ghost function Climb(q: Ext, s: seq<u8>, i: nat): (Ext, Ext)
    requires i <= 8 * |s|
    decreases 8 * |s| - i
  {
    if i == 8 * |s| then (NEUTRAL, q)
    else var above := Climb(q, s, i + 1); Rung(above.0, above.1, Bit(s, i))
  }

  method OneGf() returns (a: array<i64>)
    ensures fresh(a) && IsGf(a) && V(a) == 1 && Within(a, 1)
  {
    a := Constant(ONE_LIMBS);
    LimbsValue(ONE_LIMBS);
  }

  method ZeroGf() returns (a: array<i64>)
    ensures fresh(a) && IsGf(a) && V(a) == 0 && Within(a, 0)
  {
    a := Constant(ZERO_LIMBS);
    EvalZero(a[..], RADIX, 16);
  }

  /** Both registers take one rung; the conditional swaps select which is doubled. */
  method Step(p: Point, q: Point, b: int)
    requires p.Valid() && q.Valid() && p.Repr() !! q.Repr() && 0 <= b <= 1
    requires p.Limbs() && q.Limbs()
    modifies p.x, p.y, p.z, p.t, q.x, q.y, q.z, q.t
    ensures p.Limbs() && q.Limbs()
    ensures (p.Abs(), q.Abs()) == Rung(old(p.Abs()), old(q.Abs()), b)
  {
    Cswap(p, q, b);
    Add(q, p);
    Add(p, p);
    Cswap(p, q, b);
  }

  /** Multiplies q by s into p; q is clobbered. */
  method Scalarmult(p: Point, q: Point, s: seq<u8>)
    requires p.Valid() && q.Valid() && p.Repr() !! q.Repr() && |s| == 32
    requires q.Limbs()
    modifies p.x, p.y, p.z, p.t, q.x, q.y, q.z, q.t
    ensures p.Limbs() && q.Limbs()
    ensures (p.Abs(), q.Abs()) == Climb(old(q.Abs()), s, 0)
  {
    ghost var start := q.Abs();
    SetNeutral(p);
    for i := 256 downto 0
      invariant p.Limbs() && q.Limbs()
      invariant (p.Abs(), q.Abs()) == Climb(start, s, i)
    {
      RungBit(s, i);
      var b := And(Shr(s[i / 8], Pow2(And(i, 7, INDEX))), 1, BYTE);
      Step(p, q, b);
    }
  }

  lemma RungBit(s: seq<u8>, i: nat)
    requires |s| == 32 && i < 256
    ensures And(i, 7, INDEX) == i % 8
    ensures And(Shr(s[i / 8], Pow2(i % 8)), 1, BYTE) == Bit(s, i)
  {
    Powers();
    assert Pow(2, 3) == 8 && Pow(2, 9) == 512;
    AndMask(i, 3, INDEX);
    var d := Shr(s[i / 8], Pow2(i % 8));
    ShrSmaller(s[i / 8], Pow2(i % 8));
    AndMask(d, 1, BYTE);
    ShiftedBit(s[i / 8], i % 8);
  }

  method SetNeutral(p: Point)
    requires p.Valid()
    modifies p.x, p.y, p.z, p.t
    ensures p.Limbs() && p.Abs() == NEUTRAL
  {
    var zero := ZeroGf();
    var one := OneGf();
    Set25519(p.x, zero);
    Set25519(p.y, one);
    Set25519(p.z, one);
    Set25519(p.t, zero);
  }

  /** Multiplies the base point. */
  method Scalarbase(p: Point, s: seq<u8>)
    requires p.Valid() && |s| == 32
    modifies p.x, p.y, p.z, p.t
    ensures p.Limbs()
    ensures p.Abs() == Climb(BASE_POINT, s, 0).0
  {
    var q := new Point();
    SetBase(q);
    Scalarmult(p, q, s);
  }

  method SetBase(q: Point)
    requires q.Valid()
    modifies q.x, q.y, q.z, q.t
    ensures q.Limbs() && q.Abs() == BASE_POINT
  {
    var x := Constant(X_LIMBS);
    var y := Constant(Y_LIMBS);
    var one := OneGf();
    BaseLimbs();
    Set25519(q.x, x);
    Set25519(q.y, y);
    Set25519(q.z, one);
    M(q.t, x, y);
    CongIsSameMod(P, V(q.t), BASE_X * BASE_Y);
  }

  lemma BaseLimbs()
    ensures |X_LIMBS| == |Y_LIMBS| == 16
    ensures Range(X_LIMBS, 16, -65535, 65535) && Range(Y_LIMBS, 16, -65535, 65535)
    ensures Value(X_LIMBS) == BASE_X && Value(Y_LIMBS) == BASE_Y
  {
    BaseXValue();
    BaseYValue();
  }

  lemma BaseYValue()
    ensures Value(Y_LIMBS) == BASE_Y
  {
    LimbsValue(Y_LIMBS);
  }

  lemma BaseXValue()
    ensures Value(X_LIMBS) == BASE_X
  {
    LimbsValue(X_LIMBS);
  }

  // ----------------------------------------------------------------- encoding

  /** A product reduced mod P; kept folded. */
  ghost function ProductMod(x: int, y: int): (r: int)
    ensures 0 <= r < P
  {
    ProductModBy(Folds(), x, y)
  }

  ghost function ProductModBy(n: nat, x: int, y: int): (r: int)
    ensures 0 <= r < P
  {
    if n == 0 then (x * y) % P else ProductModBy(n - 1, x, y)
  }

  lemma {:induction false} UnfoldProductMod(n: nat, x: int, y: int)
    ensures ProductModBy(n, x, y) == (x * y) % P
  {
    if n != 0 {
      UnfoldProductMod(n - 1, x, y);
    }
  }

  lemma ProductModMeans(x: int, y: int)
    ensures ProductMod(x, y) == (x * y) % P && Equal(ProductMod(x, y), x * y)
  {
    UnfoldProductMod(Folds(), x, y);
    CongMod(P, x * y);
    CongSym(P, x * y, (x * y) % P);
  }

  lemma ProductModOf(x: int, y: int, v: int)
    requires Equal(x * y, v)
    ensures ProductMod(x, y) == v % P
  {
    ProductModMeans(x, y);
    CongIsSameMod(P, x * y, v);
  }

  /** The affine coordinates the code computes: division is multiplication by Z^(P-2). */
  ghost function Affine(p: Ext): (int, int)
  {
    (ProductMod(p.x, Pow(p.z, INVERSE_EXPONENT)), ProductMod(p.y, Pow(p.z, INVERSE_EXPONENT)))
  }

  /** The 32-byte encoding of an affine point as a number: y, with the parity of x on top. */
  function Encode(a: (int, int)): int
  {
    a.1 + (P + 19) * (a.0 % 2)
  }

  lemma {:induction false} PowCong(x: int, y: int, e: nat)
    requires Equal(x, y)
    ensures Equal(Pow(x, e), Pow(y, e))
  {
    if e != 0 {
      PowCong(x, y, e - 1);
      CongMul(P, x, y, Pow(x, e - 1), Pow(y, e - 1));
    } else {
      CongIntro(P, 1, 1, 0);
    }
  }

  /** Dividing by a coordinate in memory is dividing by its field element. */
  lemma Quotient(r: int, x: int, zi: int, z: int)
    requires Equal(r, x * zi) && Equal(zi, Pow(z, INVERSE_EXPONENT))
    ensures r % P == ProductMod(x % P, Pow(z % P, INVERSE_EXPONENT))
  {
    var w := Pow(z % P, INVERSE_EXPONENT);
    ProductModMeans(x % P, w);
    CongMod(P, x);
    CongMod(P, z);
    PowCong(z, z % P, INVERSE_EXPONENT);
    CongTrans(P, zi, Pow(z, INVERSE_EXPONENT), w);
    ProductOf(r, x, zi, x % P, w);
    CongIsSameMod(P, r, (x % P) * w);
  }

  method Pack(r: array<u8>, p: Point)
    requires r.Length == 32 && p.Valid() && p.Limbs()
    modifies r
    ensures Le(r[..]) == old(Encode(Affine(p.Abs())))
  {
    var tx, ty, zi := new i64[16](_ => 0), new i64[16](_ => 0), new i64[16](_ => 0);
    ghost var raw := p.Raw();
    Inv25519(zi, p.z);
    M(tx, p.x, zi);
    M(ty, p.y, zi);
    Quotient(V(tx), raw.x, V(zi), raw.z);
    Quotient(V(ty), raw.y, V(zi), raw.z);
    Pack25519(r, ty);
    var par := Par25519(tx);
    ghost var y := r[..];
    SignBit(y, par);
    r[31] := Xor(r[31], par * 128 % 256, BYTE);
    assert r[..] == y[31 := y[31] + 128 * par];
  }

  /** The top bit of a canonical y is clear, so toggling it adds 2^255. */
  lemma SignBit(y: seq<u8>, par: int)
    requires |y| == 32 && 0 <= Le(y) < P && 0 <= par <= 1
    ensures Xor(y[31], par * 128 % 256, BYTE) == y[31] + 128 * par < 256
    ensures Le(y[31 := y[31] + 128 * par]) == Le(y) + (P + 19) * par
  {
    TopByteSmall(y);
    ToggleTop(y[31], par);
    EvalUpdate(y, 256, 32, 31, y[31] + 128 * par);
    WeightOfTop(par, Pow(256, 31));
    TopByte();
  }

  lemma ToggleTop(b: int, par: int)
    requires 0 <= b < 128 && 0 <= par <= 1
    ensures Xor(b, par * 128 % 256, BYTE) == b + 128 * par
  {
    Powers();
    var bit := par * 128 % 256;
    if par == 0 {
      assert bit == 0;
      XorZero(b, BYTE);
    } else {
      assert bit == Pow(2, 7);
      TopBit(b, 7, BYTE);
    }
  }

  lemma WeightOfTop(par: int, w: int)
    ensures (128 * par) * w == (128 * w) * par
  {
  }

  lemma TopByteSmall(y: seq<u8>)
    requires |y| == 32 && Le(y) < P
    ensures y[31] < 128
  {
    EvalBounds(y, 256, 31);
    TopByte();
    MulMono(128, y[31], Pow(256, 31));
  }

  lemma TopByte()
    ensures 128 * Pow(256, 31) == P + 19
  {
    Scalar.PowersOf256();
  }
}
