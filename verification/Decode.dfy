/** Decoding a public key into the negated point, with the checks a key must pass. */
module Decode {
  import opened Words
  import opened Wrappers
  import opened Digits
  import opened LittleEndian
  import opened Modular
  import opened Bits
  import opened Field
  import opened FieldPower
  import opened Curve
  import opened Ladder
  import Util
  import EdwardsLaw

  /** A square root of -1. */
  const SQRT_MINUS_ONE: int := 0x2b83_2480_4fc1_df0b_2b4d_0099_3dfb_d7a7_2f43_1806_ad2f_e478_c4ee_1b27_4a0e_a0b0
  const I_LIMBS: seq<i64> := [
    0xa0b0, 0x4a0e, 0x1b27, 0xc4ee, 0xe478, 0xad2f, 0x1806, 0x2f43,
    0xd7a7, 0x3dfb, 0x0099, 0x2b4d, 0xdf0b, 0x4fc1, 0x2480, 0x2b83]

  // ------------------------------------------------------------ what is decoded

  /** x^2 = Numerator / Denominator on the curve. */
  function Numerator(y: int): int
  {
    y * y - 1
  }

  ghost function Denominator(y: int): int
  {
    1 + y * y * D
  }

  /** u v^7, whose power (P-5)/8 leads to a root of u/v. */
  function RootBase(u: int, v: int): int
  {
    (((v * v) * (v * v)) * (v * v)) * u * v
  }

  /** The candidate u v^3 (u v^7)^((P-5)/8). */
  function Candidate(u: int, v: int): int
  {
    Pow(RootBase(u, v), ROOT_EXPONENT) * u * v * v * v
  }

  ghost predicate IsRoot(x: int, u: int, v: int)
  {
    Equal(x * x * v, u)
  }

  /** The candidate, or its product with sqrt(-1). */
  ghost function ChosenRoot(u: int, v: int): int
  {
    var x := Candidate(u, v);
    if IsRoot(x, u, v) then x else x * SQRT_MINUS_ONE
  }

  /** The x coordinate that is tried; kept folded. */
  ghost function TriedRoot(y: int): (x: int)
    ensures 0 <= x < P
  {
    TriedRootBy(Folds(), y)
  }

  ghost function TriedRootBy(n: nat, y: int): (x: int)
    ensures 0 <= x < P
  {
    if n == 0 then ChosenRoot(Numerator(y), Denominator(y)) % P else TriedRootBy(n - 1, y)
  }

  lemma {:induction false} UnfoldTriedRoot(n: nat, y: int)
    ensures TriedRootBy(n, y) == TriedRootBy(0, y)
  {
    if n != 0 {
      UnfoldTriedRoot(n - 1, y);
    }
  }

  /** Three doublings. */
  ghost function Eight(p: Ext): Ext
  {
    var q := EdAdd(p, p);
    var r := EdAdd(q, q);
    EdAdd(r, r)
  }

  ghost predicate IsLowOrder(p: Ext)
  {
    Encode(Affine(Eight(p))) == 1
  }

  /** The bytes of a key: a y coordinate and the sign of x in the top bit. */
  function KeyY(key: seq<u8>): int
  {
    Le(key) % (P + 19)
  }

  function KeySign(key: seq<u8>): int
  {
    Le(key) / (P + 19)
  }

  function Negated(x: int, negate: bool): int
  {
    if negate then (-x) % P else x
  }

  /** The point that the encoding denotes, negated; None if there is none. Kept folded. */
  ghost function KeyPoint(key: seq<u8>): Option<Ext>
  {
    KeyPointBy(Folds(), key)
  }

  ghost function KeyPointBy(n: nat, key: seq<u8>): Option<Ext>
  {
    if n == 0 then SolvedPoint(key) else KeyPointBy(n - 1, key)
  }

  lemma {:induction false} UnfoldKeyPoint(n: nat, key: seq<u8>)
    ensures KeyPointBy(n, key) == SolvedPoint(key)
  {
    if n != 0 {
      UnfoldKeyPoint(n - 1, key);
    }
  }

  lemma KeyPointMeans(key: seq<u8>)
    ensures KeyPoint(key) == SolvedPoint(key)
  {
    UnfoldKeyPoint(Folds(), key);
  }

  ghost function SolvedPoint(key: seq<u8>): Option<Ext>
  {
    var y := KeyY(key);
    var x := TriedRoot(y);
    if y >= P || !IsRoot(x, Numerator(y), Denominator(y)) then None
    else
      var signed := Negated(x, x % 2 == KeySign(key));
      Some(Ext(signed, y, 1, ProductMod(signed, y)))
  }

  /** The point a key is used as, negated; None for a key that is rejected. Kept folded. */
  ghost function DecodeNegated(key: seq<u8>): (r: Option<Ext>)
    ensures r.Some? ==> KeyPoint(key) == r
  {
    DecodeNegatedBy(Folds(), key)
  }

  ghost function DecodeNegatedBy(n: nat, key: seq<u8>): (r: Option<Ext>)
    ensures r.Some? ==> KeyPoint(key) == r
  {
    if n != 0 then DecodeNegatedBy(n - 1, key)
    else
      var point := KeyPoint(key);
      if point.None? || IsLowOrder(point.value) then None else point
  }

  lemma {:induction false} UnfoldDecodeNegated(n: nat, key: seq<u8>)
    ensures DecodeNegatedBy(n, key) == DecodeNegatedBy(0, key)
  {
    if n != 0 {
      UnfoldDecodeNegated(n - 1, key);
    }
  }

  lemma DecodeNegatedMeans(key: seq<u8>)
    ensures DecodeNegated(key)
         == if KeyPoint(key).None? || IsLowOrder(KeyPoint(key).value) then None else KeyPoint(key)
  {
    UnfoldDecodeNegated(Folds(), key);
  }

  // ------------------------------------------------------------- how it is done

  /** The numerator and denominator of x^2. */
  method Fraction(y: array<i64>) returns (num: array<i64>, den: array<i64>)
    requires IsGf(y) && Within(y, FACTOR_LIMIT)
    ensures fresh(num) && fresh(den) && num != den && IsGf(num) && IsGf(den)
    ensures Within(num, 2 * TIGHT) && Within(den, 2 * TIGHT)
    ensures Equal(V(num), Numerator(V(y))) && Equal(V(den), Denominator(V(y)))
  {
    num, den := new i64[16](_ => 0), new i64[16](_ => 0);
    var d := Constant(D_LIMBS);
    DValue();
    var one := OneGf();
    ghost var y0 := V(y);
    S(num, y);
    M(den, num, d);
    ProductOf(V(den), V(num), V(d), y0 * y0, D);
    ghost var s, t := V(num), V(den);
    Z(num, num, one, TIGHT);
    A(den, one, den, TIGHT);
    CongIntro(P, 1, 1, 0);
    CongSub(P, s, y0 * y0, 1, 1);
    CongAdd(P, 1, 1, t, y0 * y0 * D);
  }

  lemma DValue()
    ensures |D_LIMBS| == 16 && Range(D_LIMBS, 16, 0, 65535) && Value(D_LIMBS) == D
  {
    SealedValue(D_VALUE);
    LimbsValue(D_LIMBS);
  }

  lemma IValue()
    ensures |I_LIMBS| == 16 && Range(I_LIMBS, 16, 0, 65535) && Value(I_LIMBS) == SQRT_MINUS_ONE
  {
    LimbsValue(I_LIMBS);
  }

  /** The element whose power is taken. */
  method RootBaseOf(t: array<i64>, num: array<i64>, den: array<i64>)
    requires IsGf(t) && IsGf(num) && IsGf(den) && t != num && t != den
    requires Within(num, 2 * TIGHT) && Within(den, 2 * TIGHT)
    modifies t
    ensures Within(t, TIGHT) && Equal(V(t), RootBase(V(num), V(den)))
  {
    var den2, den4, den6 := new i64[16](_ => 0), new i64[16](_ => 0), new i64[16](_ => 0);
    ghost var u, v := V(num), V(den);
    S(den2, den);
    S(den4, den2);
    ProductOf(V(den4), V(den2), V(den2), v * v, v * v);
    M(den6, den4, den2);
    ProductOf(V(den6), V(den4), V(den2), (v * v) * (v * v), v * v);
    M(t, den6, num);
    ghost var w := ((v * v) * (v * v)) * (v * v);
    Refl(u);
    Refl(v);
    ProductOf(V(t), V(den6), u, w, u);
    ghost var t0 := V(t);
    M(t, t, den);
    ProductOf(V(t), t0, v, w * u, v);
  }

  lemma Refl(x: int)
    ensures Equal(x, x)
  {
    CongIntro(P, x, x, 0);
  }

  /** The candidate root, from the power on. */
  method CandidateOf(x: array<i64>, t: array<i64>, num: array<i64>, den: array<i64>)
    requires IsGf(x) && IsGf(t) && IsGf(num) && IsGf(den)
    requires x != t && x != num && x != den && t != num && t != den
    requires Within(t, TIGHT) && Within(num, 2 * TIGHT) && Within(den, 2 * TIGHT)
    requires Equal(V(t), RootBase(V(num), V(den)))
    modifies x, t
    ensures Within(x, TIGHT) && Equal(V(x), Candidate(V(num), V(den)))
  {
    ghost var u, v, b := V(num), V(den), V(t);
    Refl(u);
    Refl(v);
    Pow2523(t, t);
    PowCong(b, RootBase(u, v), ROOT_EXPONENT);
    ghost var w, t0 := Pow(RootBase(u, v), ROOT_EXPONENT), V(t);
    CongTrans(P, t0, Pow(b, ROOT_EXPONENT), w);
    M(t, t, num);
    ProductOf(V(t), t0, u, w, u);
    ghost var t1 := V(t);
    M(t, t, den);
    ProductOf(V(t), t1, v, w * u, v);
    ghost var t2 := V(t);
    M(t, t, den);
    ProductOf(V(t), t2, v, w * u * v, v);
    M(x, t, den);
    ProductOf(V(x), V(t), v, w * u * v * v, v);
  }

  /** Does x^2 den equal num? */
  method Check(x: array<i64>, num: array<i64>, den: array<i64>) returns (bad: int)
    requires IsGf(x) && IsGf(num) && IsGf(den)
    requires Within(x, FACTOR_LIMIT) && Within(num, 2 * TIGHT) && Within(den, 2 * TIGHT)
    ensures bad == if IsRoot(V(x), V(num), V(den)) then 0 else 1
  {
    var chk := new i64[16](_ => 0);
    S(chk, x);
    ghost var c, v := V(chk), V(den);
    M(chk, chk, den);
    Refl(v);
    ProductOf(V(chk), c, v, V(x) * V(x), v);
    bad := Neq25519(chk, num);
    CongIsSameMod(P, V(chk), V(x) * V(x) * v);
    CongIsSameMod(P, V(chk), V(num));
    CongIsSameMod(P, V(x) * V(x) * v, V(num));
  }

  lemma RootCong(x: int, u: int, v: int, x': int, u': int, v': int)
    requires Equal(x, x') && Equal(u, u') && Equal(v, v')
    ensures IsRoot(x, u, v) <==> IsRoot(x', u', v')
  {
    CongMul(P, x, x', x, x');
    CongMul(P, x * x, x' * x', v, v');
    CongIsSameMod(P, x * x * v, x' * x' * v');
    CongIsSameMod(P, u, u');
    CongIsSameMod(P, x * x * v, u);
    CongIsSameMod(P, x' * x' * v', u');
  }

  lemma CandidateCong(u: int, v: int, u': int, v': int)
    requires Equal(u, u') && Equal(v, v')
    ensures Equal(Candidate(u, v), Candidate(u', v'))
  {
    CongMul(P, v, v', v, v');
    CongMul(P, v * v, v' * v', v * v, v' * v');
    CongMul(P, (v * v) * (v * v), (v' * v') * (v' * v'), v * v, v' * v');
    var w, w' := ((v * v) * (v * v)) * (v * v), ((v' * v') * (v' * v')) * (v' * v');
    CongMul(P, w, w', u, u');
    CongMul(P, w * u, w' * u', v, v');
    PowCong(RootBase(u, v), RootBase(u', v'), ROOT_EXPONENT);
    var p, p' := Pow(RootBase(u, v), ROOT_EXPONENT), Pow(RootBase(u', v'), ROOT_EXPONENT);
    CongMul(P, p, p', u, u');
    CongMul(P, p * u, p' * u', v, v');
    CongMul(P, p * u * v, p' * u' * v', v, v');
    CongMul(P, p * u * v * v, p' * u' * v' * v', v, v');
  }

  /** Replaces the candidate by its product with sqrt(-1) unless it is a root already. */
  method ChooseRoot(x: array<i64>, num: array<i64>, den: array<i64>)
    requires IsGf(x) && IsGf(num) && IsGf(den) && x != num && x != den
    requires Within(x, TIGHT) && Within(num, 2 * TIGHT) && Within(den, 2 * TIGHT)
    modifies x
    ensures Within(x, TIGHT)
    ensures var x0 := old(V(x));
      Equal(V(x), if IsRoot(x0, V(num), V(den)) then x0 else x0 * SQRT_MINUS_ONE)
  {
    ghost var x0 := V(x);
    Refl(x0);
    var bad := Check(x, num, den);
    if bad != 0 {
      var i := Constant(I_LIMBS);
      IValue();
      M(x, x, i);
    }
  }

  /** The tried root in terms of the y coordinate. */
  lemma TriedRootOf(x: int, x0: int, num: int, den: int, y: int)
    requires Equal(num, Numerator(y)) && Equal(den, Denominator(y))
    requires Equal(x0, Candidate(num, den))
    requires Equal(x, if IsRoot(x0, num, den) then x0 else x0 * SQRT_MINUS_ONE)
    ensures x % P == TriedRoot(y)
  {
    UnfoldTriedRoot(Folds(), y);
    var u, v := Numerator(y), Denominator(y);
    var c := Candidate(u, v);
    CandidateCong(num, den, u, v);
    CongTrans(P, x0, Candidate(num, den), c);
    RootCong(x0, num, den, c, u, v);
    Refl(SQRT_MINUS_ONE);
    CongMul(P, x0, c, SQRT_MINUS_ONE, SQRT_MINUS_ONE);
    var chosen := if IsRoot(c, u, v) then c else c * SQRT_MINUS_ONE;
    CongTrans(P, x, if IsRoot(x0, num, den) then x0 else x0 * SQRT_MINUS_ONE, chosen);
    CongIsSameMod(P, x, chosen);
  }

  /** Solves the curve equation for x, given y; whether a root was found. */
  method SolveX(x: array<i64>, y: array<i64>) returns (found: bool)
    requires IsGf(x) && IsGf(y) && x != y && Within(y, FACTOR_LIMIT)
    modifies x
    ensures Within(x, TIGHT) && V(x) % P == TriedRoot(V(y))
    ensures found <==> IsRoot(TriedRoot(V(y)), Numerator(V(y)), Denominator(V(y)))
  {
    var num, den := Fraction(y);
    var t := new i64[16](_ => 0);
    RootBaseOf(t, num, den);
    CandidateOf(x, t, num, den);
    ghost var x0 := V(x);
    ChooseRoot(x, num, den);
    TriedRootOf(V(x), x0, V(num), V(den), V(y));
    var bad := Check(x, num, den);
    CongMod(P, V(x));
    RootCong(V(x), V(num), V(den), TriedRoot(V(y)), Numerator(V(y)), Denominator(V(y)));
    found := bad == 0;
  }

  const IDENTITY: seq<u8> := [
    1, 0, 0, 0, 0, 0, 0, 0, 0, 0, 0, 0, 0, 0, 0, 0,
    0, 0, 0, 0, 0, 0, 0, 0, 0, 0, 0, 0, 0, 0, 0, 0]

  lemma IdentityValue()
    ensures |IDENTITY| == 32 && Le(IDENTITY) == 1
  {
    var s := IDENTITY;
    assert s[0] == 1 && forall k :: 1 <= k < 32 ==> s[k] == 0;
    OneDigit(s, 32);
  }

  lemma {:induction false} OneDigit(s: seq<int>, n: nat)
    requires 1 <= n <= |s| && s[0] == 1 && forall k :: 1 <= k < n ==> s[k] == 0
    ensures Eval(s, 256, n) == 1
  {
    if n != 1 {
      OneDigit(s, n - 1);
    } else {
      assert Eval(s, 256, 0) == 0;
    }
  }

  /** Byte strings of one length agree exactly when their values do. */
  lemma SameBytes(a: seq<u8>, b: seq<u8>)
    requires |a| == |b|
    ensures a == b <==> Le(a) == Le(b)
  {
    if Le(a) == Le(b) {
      EvalInjective(a, b, 256, |a|);
      assert a[..|a|] == a && b[..|b|] == b;
    }
  }

  method CopyPoint(p: Point) returns (t: Point)
    requires p.Valid() && p.Limbs()
    ensures fresh(t.Repr()) && t.Valid() && t.Limbs() && t.Abs() == p.Abs()
  {
    t := new Point();
    Set25519(t.x, p.x);
    Set25519(t.y, p.y);
    Set25519(t.z, p.z);
    Set25519(t.t, p.t);
  }

  method Eightfold(p: Point) returns (t: Point)
    requires p.Valid() && p.Limbs()
    ensures fresh(t.Repr()) && t.Valid() && t.Limbs() && t.Abs() == Eight(p.Abs())
  {
    t := CopyPoint(p);
    Add(t, t);
    Add(t, t);
    Add(t, t);
  }

  /** Does the point have order 1, 2, 4 or 8? */
  method LowOrder(p: Point) returns (low: bool)
    requires p.Valid() && p.Limbs()
    ensures low <==> IsLowOrder(p.Abs())
  {
    var t := Eightfold(p);
    var e := new u8[32](_ => 0);
    Pack(e, t);
    IdentityValue();
    SameBytes(e[..], IDENTITY);
    var eq := Util.CtEq(e[..], IDENTITY);
    low := eq == 1;
  }

  /** The top bit of a 32-byte string, and the number below it. */
  lemma SplitKey(key: seq<u8>)
    requires |key| == 32
    ensures Shr(key[31], 128) == KeySign(key) && 0 <= KeySign(key) <= 1
    ensures Le(key) == KeyY(key) + (P + 19) * KeySign(key) && 0 <= KeyY(key) < P + 19
    ensures And(key[31], 0x80, BYTE) == 128 * KeySign(key)
  {
    EvalBounds(key, 256, 31);
    TopByte();
    var w, h, l := Pow(256, 31), key[31] / 128, key[31] % 128;
    MulMono(0, l, w);
    MulMono(l, 127, w);
    SplitWeight(key[31], w);
    DivUnique(P + 19, Le(key), h, Eval(key, 256, 31) + l * w);
    Powers();
    AndTopBit(key[31], 7, BYTE);
  }

  lemma SplitWeight(b: int, w: int)
    ensures b * w == (b % 128) * w + (b / 128) * (128 * w)
  {
    assert b == b % 128 + 128 * (b / 128);
    assert (b % 128 + 128 * (b / 128)) * w == (b % 128) * w + (b / 128) * (128 * w);
  }

  /** Joining a top bit to bytes whose top bit is clear. */
  lemma JoinTop(b: int, sign: int)
    requires 0 <= b < 128 && 0 <= sign <= 1
    ensures Or(b, 128 * sign, BYTE) == b + 128 * sign < 256
  {
    Powers();
    var bit := 128 * sign;
    if sign == 0 {
      assert bit == 0;
      OrZero(b, BYTE);
    } else {
      assert bit == Pow(2, 7);
      TopBit(b, 7, BYTE);
    }
  }

  /** The canonical bytes of a y, given the key's sign bit, are the key exactly when the
      key's own y is canonical. */
  lemma CanonicalBytes(c: seq<u8>, key: seq<u8>)
    requires |c| == |key| == 32 && Le(c) == KeyY(key) % P
    ensures var b := Or(c[31], And(key[31], 0x80, BYTE), BYTE);
      0 <= b < 256 && (c[31 := b] == key <==> KeyY(key) < P)
  {
    SplitKey(key);
    TopByteSmall(c);
    JoinTop(c[31], KeySign(key));
    var d := c[31 := c[31] + 128 * KeySign(key)];
    EvalUpdate(c, 256, 32, 31, c[31] + 128 * KeySign(key));
    WeightOfTop(KeySign(key), Pow(256, 31));
    TopByte();
    SameBytes(d, key);
  }

  /** Is y the canonical reading of the key? The element is frozen, given the key's sign bit,
      and compared with the key. */
  method IsCanonical(y: array<i64>, key: seq<u8>) returns (canonical: bool)
    requires IsGf(y) && Within(y, FACTOR_LIMIT) && |key| == 32
    requires V(y) == KeyY(key)
    ensures canonical <==> KeyY(key) < P
  {
    var canon := new u8[32](_ => 0);
    Pack25519(canon, y);
    ghost var c := canon[..];
    CanonicalBytes(c, key);
    canon[31] := Or(canon[31], And(key[31], 0x80, BYTE), BYTE);
    assert canon[..] == c[31 := canon[31]];
    var eq := Util.CtEq(canon[..], key);
    canonical := eq == 1;
  }

  /** Gives x the sign opposite to the key's: parity equal to the sign bit means negate. */
  method OppositeSign(x: array<i64>, key: seq<u8>)
    requires IsGf(x) && Within(x, TIGHT) && |key| == 32
    modifies x
    ensures Within(x, 2 * TIGHT)
    ensures var x0 := old(V(x)) % P;
      V(x) % P == Negated(x0, x0 % 2 == KeySign(key))
  {
    ghost var v := V(x);
    SplitKey(key);
    var par := Par25519(x);
    if par == Shr(key[31], 128) {
      var zero := ZeroGf();
      Z(x, zero, x, TIGHT);
      NegatedOf(v, V(x));
    }
  }

  lemma NegatedOf(v: int, w: int)
    requires w == -v
    ensures w % P == Negated(v % P, true)
  {
    NegMod(P, v);
  }

  /** Z and y of the point, and whether the key's y is canonical. */
  method UnpackY(r: Point, key: seq<u8>) returns (canonical: bool)
    requires r.Valid() && |key| == 32
    modifies r.y, r.z
    ensures canonical <==> KeyY(key) < P
    ensures V(r.y) == KeyY(key) && Within(r.y, 65535) && V(r.z) == 1 && Within(r.z, 1)
  {
    var one := OneGf();
    Set25519(r.z, one);
    Unpack25519(r.y, key);
    canonical := IsCanonical(r.y, key);
  }

  /** The sign of x, and T. */
  method FinishPoint(r: Point, key: seq<u8>)
    requires r.Valid() && |key| == 32 && Within(r.x, TIGHT)
    requires V(r.y) == KeyY(key) < P && Within(r.y, 65535) && V(r.z) == 1 && Within(r.z, 1)
    modifies r.x, r.t
    ensures r.Limbs()
    ensures var x := old(V(r.x)) % P; var signed := Negated(x, x % 2 == KeySign(key));
      r.Abs() == Ext(signed, KeyY(key), 1, ProductMod(signed, KeyY(key)))
  {
    OppositeSign(r.x, key);
    ghost var x, y := V(r.x), V(r.y);
    M(r.t, r.x, r.y);
    ThirdCoordinate(V(r.t), x, y);
  }

  /** Everything of the decoding but the order check. */
  method UnpackPoint(r: Point, key: seq<u8>) returns (found: bool)
    requires r.Valid() && |key| == 32
    modifies r.x, r.y, r.z, r.t
    ensures found <==> KeyPoint(key).Some?
    ensures found ==> r.Limbs() && r.Abs() == KeyPoint(key).value
  {
    KeyPointMeans(key);
    found := UnpackY(r, key);
    if !found {
      return false;
    }
    found := SolveX(r.x, r.y);
    if !found {
      return false;
    }
    FinishPoint(r, key);
  }

  /** Decodes a key into -A. Returns 0 on success and -1 on a rejected key. */
  method Unpackneg(r: Point, key: seq<u8>) returns (rc: int)
    requires r.Valid() && |key| == 32
    modifies r.x, r.y, r.z, r.t
    ensures rc == (if DecodeNegated(key).None? then -1 else 0)
    ensures rc == 0 ==> r.Limbs() && r.Abs() == DecodeNegated(key).value
  {
    DecodeNegatedMeans(key);
    var found := UnpackPoint(r, key);
    if !found {
      return -1;
    }
    var low := LowOrder(r);
    rc := if low then -1 else 0;
  }

  lemma ThirdCoordinate(t: int, x: int, y: int)
    requires Equal(t, x * y)
    ensures t % P == ProductMod(x % P, y)
  {
    ProductModMeans(x % P, y);
    CongMod(P, x);
    Refl(y);
    CongMul(P, x, x % P, y, y);
    CongTrans(P, t, x * y, (x % P) * y);
    CongIsSameMod(P, t, (x % P) * y);
  }

  // ---------------------------------------------------------------- soundness

  /** The point of an encoding has its y, Z = 1, and satisfies the curve equation. */
  lemma KeyPointIsOnCurve(key: seq<u8>)
    requires |key| == 32 && KeyPoint(key).Some?
    ensures var p := KeyPoint(key).value;
      && KeyY(key) < P && 0 <= p.x < P && p.y == KeyY(key) && p.z == 1
      && Equal(p.y * p.y - p.x * p.x, 1 + D * ((p.x * p.x) * (p.y * p.y)))
      && EdwardsLaw.OnCurve(p)
  {
    KeyPointMeans(key);
    var p, y := KeyPoint(key).value, KeyY(key);
    var x, v := TriedRoot(y), Denominator(y);
    NegatedSquare(x, x % 2 == KeySign(key));
    Refl(v);
    CongMul(P, p.x * p.x, x * x, v, v);
    CongTrans(P, p.x * p.x * v, x * x * v, Numerator(y));
    FractionCleared(p.x * p.x, y * y);
    ProductModMeans(p.x, p.y);
    ProductCoordinate(p);
  }

  lemma NegatedSquare(x: int, negate: bool)
    ensures var s := Negated(x, negate); Equal(s * s, x * x)
  {
    CongMod(P, -x);
    CongSym(P, -x, (-x) % P);
    SquareOfNegation((-x) % P, x);
  }

  lemma SquareOfNegation(s: int, x: int)
    requires Equal(s, -x)
    ensures Equal(s * s, x * x)
  {
    CongMul(P, s, -x, s, -x);
    assert (-x) * (-x) == x * x;
  }

  /** An accepted key is canonical, its point lies on the curve, and eight times the point
      does not encode as the identity. */
  lemma DecodedIsOnCurve(key: seq<u8>)
    requires |key| == 32 && DecodeNegated(key).Some?
    ensures var p := DecodeNegated(key).value;
      && KeyY(key) < P && 0 <= p.x < P && p.y == KeyY(key) && p.z == 1
      && Equal(p.y * p.y - p.x * p.x, 1 + D * ((p.x * p.x) * (p.y * p.y)))
      && EdwardsLaw.OnCurve(p)
      && !IsLowOrder(p)
  {
    DecodeNegatedMeans(key);
    KeyPointIsOnCurve(key);
  }

  lemma FractionCleared(xx: int, yy: int)
    requires Equal(xx * (1 + yy * D), yy - 1)
    ensures Equal(yy - xx, 1 + D * (xx * yy))
  {
    var k := CongElim(P, xx * (1 + yy * D), yy - 1);
    assert xx * (1 + yy * D) == xx + D * (xx * yy);
    CongIntro(P, yy - xx, 1 + D * (xx * yy), -k);
  }

  lemma ProductCoordinate(p: Ext)
    requires p.z == 1 && Equal(p.t, p.x * p.y)
    requires Equal(p.y * p.y - p.x * p.x, 1 + D * ((p.x * p.x) * (p.y * p.y)))
    ensures EdwardsLaw.OnCurve(p)
  {
    EdwardsLaw.OnCurveMeans(p);
    var m := p.x * p.y;
    CongSym(P, p.t, m);
    CongMul(P, m, p.t, m, p.t);
    assert m * m == (p.x * p.x) * (p.y * p.y);
    Refl(D);
    CongMul(P, D, D, m * m, p.t * p.t);
    Refl(1);
    CongAdd(P, 1, 1, D * (m * m), D * (p.t * p.t));
    CongTrans(P, p.y * p.y - p.x * p.x, 1 + D * (m * m), 1 + D * (p.t * p.t));
  }
}
