/** The field of integers modulo P = 2^255 - 19, as sixteen signed limbs of radix 2^16. */
module Field {
  import opened Words
  import opened Digits
  import opened LittleEndian
  import opened Modular
  import opened Bits
  import Util

  const P: int := 0x7fff_ffff_ffff_ffff_ffff_ffff_ffff_ffff_ffff_ffff_ffff_ffff_ffff_ffff_ffff_ffed
  const RADIX: int := 0x1_0000

  /** Limbs a carry pass may start from: 39 * 2^56 is what a product can reach. */
  const CARRY_LIMIT: int := 0x2700_0000_0000_0000
  /** Limbs a multiplication may start from. */
  const FACTOR_LIMIT: int := 0x3ff_ffff

  /** A field element held in memory. */
  predicate IsGf(a: array<i64>)
  {
    a.Length == 16
  }

  /** The integer that sixteen limbs stand for. */
  function Value(s: seq<int>): int
    requires |s| == 16
  {
    Eval(s, RADIX, 16)
  }

  ghost function V(a: array<i64>): int
    requires IsGf(a)
    reads a
  {
    Value(a[..])
  }

  ghost predicate Within(a: array<i64>, bound: int)
    reads a
  {
    Range(a[..], 16, -bound, bound)
  }

  /** The largest limb two carry passes leave. */
  const TIGHT: int := 65573

  /** Limbs as two carry passes leave them. */
  ghost predicate Tight(s: seq<int>)
  {
    Range(s, 16, -38, 65573) && forall k :: 1 <= k < 16 ==> 0 <= s[k] <= 65535
  }

  ghost predicate Equal(x: int, y: int)
  {
    Cong(P, x, y)
  }

  // ------------------------------------------------------------------ carries

  /** The carry that arrives at limb i. */
  function CarryIn(s: seq<int>, i: nat): int
    requires i <= |s|
  {
    if i == 0 then 0 else Shr(s[i - 1] + CarryIn(s, i - 1), RADIX)
  }

  function Remainder(s: seq<int>, k: nat): int
    requires k < |s|
  {
    (s[k] + CarryIn(s, k)) % RADIX
  }

  /** One carry pass: the carry out of the top limb re-enters at the bottom times 38. */
  function Carried(s: seq<int>): (r: seq<int>)
    requires |s| == 16
    ensures |r| == 16
  {
    seq(16, k requires 0 <= k < 16 => Remainder(s, k) + if k == 0 then 38 * CarryIn(s, 16) else 0)
  }

  lemma RadixPower()
    ensures Pow(RADIX, 16) == 2 * P + 38
    ensures Pow(RADIX, 15) == 0x1_0000_0000_0000_0000_0000_0000_0000_0000_0000_0000_0000_0000_0000_0000_0000
  {
    assert Pow(RADIX, 4) == 0x1_0000_0000_0000_0000;
    PowAdd(RADIX, 4, 4);
    PowAdd(RADIX, 8, 8);
    PowAdd(RADIX, 8, 7);
    PowAdd(RADIX, 4, 3);
    assert Pow(RADIX, 3) == 0x1_0000_0000_0000;
  }

  lemma {:induction false} RemaindersValue(s: seq<int>, r: seq<int>, n: nat)
    requires n <= |s| && n <= |r|
    requires forall k :: 0 <= k < n ==> r[k] == Remainder(s, k)
    ensures Eval(r, RADIX, n) == Eval(s, RADIX, n) - CarryIn(s, n) * Pow(RADIX, n)
  {
    if n != 0 {
      RemaindersValue(s, r, n - 1);
      var w, c, d := Pow(RADIX, n - 1), CarryIn(s, n - 1), CarryIn(s, n);
      assert r[n - 1] == s[n - 1] + c - RADIX * d;
      assert (s[n - 1] + c - RADIX * d) * w == s[n - 1] * w + c * w - d * (RADIX * w);
    }
  }

  /** A carry pass keeps the field element. */
  lemma CarriedValue(s: seq<int>)
    requires |s| == 16
    ensures Equal(Value(Carried(s)), Value(s))
  {
    var r := seq(16, k requires 0 <= k < 16 => Remainder(s, k));
    var c := CarryIn(s, 16);
    RemaindersValue(s, r, 16);
    EvalUpdate(r, RADIX, 16, 0, r[0] + 38 * c);
    assert Carried(s) == r[0 := r[0] + 38 * c];
    RadixPower();
    assert Value(Carried(s)) - Value(s) == (-2 * c) * P;
    CongIntro(P, Value(Carried(s)), Value(s), -2 * c);
  }

  lemma {:induction false} CarryBound(s: seq<int>, n: nat, b: int)
    requires b >= 0 && Range(s, n, -b * RADIX, b * RADIX)
    ensures -2 * b - 1 <= CarryIn(s, n) <= 2 * b + 1
  {
    if n != 0 {
      CarryBound(s, n - 1, b);
    }
  }

  lemma {:induction false} SmallCarries(s: seq<int>, n: nat)
    requires 1 <= n <= |s| && -1 <= CarryIn(s, 1) <= 1
    requires forall k :: 1 <= k < n ==> 0 <= s[k] <= 65535
    ensures -1 <= CarryIn(s, n) <= 1
    ensures CarryIn(s, n) != 0 ==> CarryIn(s, 1) == CarryIn(s, n)
  {
    if n != 1 {
      SmallCarries(s, n - 1);
    }
  }

  /** The first pass over a product: limbs 1..15 normalised, limb 0 still wide. */
  lemma FirstPass(s: seq<int>)
    requires |s| == 16 && Range(s, 16, -CARRY_LIMIT, CARRY_LIMIT)
    ensures var r := Carried(s);
      -0x10_0000_0000_0000 <= r[0] <= 0x10_0000_0000_0000
      && forall k :: 1 <= k < 16 ==> 0 <= r[k] <= 65535
  {
    CarryBound(s, 16, 0x2700_0000_0000);
  }

  /** The second pass over a product leaves tight limbs. */
  lemma SecondPass(s: seq<int>)
    requires |s| == 16
    requires -0x10_0000_0000_0000 <= s[0] <= 0x10_0000_0000_0000
    requires forall k :: 1 <= k < 16 ==> 0 <= s[k] <= 65535
    ensures Tight(Carried(s))
  {
    assert CarryIn(s, 0) == 0;
    assert -0x10_0000_0000 <= CarryIn(s, 1) <= 0x10_0000_0000;
    assert -0x10_0000 <= CarryIn(s, 2) <= 0x10_0001;
    assert -16 <= CarryIn(s, 3) <= 17;
    assert -1 <= CarryIn(s, 4) <= 1;
    LateCarries(s, 16);
  }

  lemma {:induction false} LateCarries(s: seq<int>, n: nat)
    requires 4 <= n <= |s| && -1 <= CarryIn(s, 4) <= 1
    requires forall k :: 1 <= k < n ==> 0 <= s[k] <= 65535
    ensures -1 <= CarryIn(s, n) <= 1
  {
    if n != 4 {
      LateCarries(s, n - 1);
    }
  }

  /** A pass over tight limbs normalises all sixteen. */
  lemma LastPass(s: seq<int>)
    requires |s| == 16 && Tight(s)
    ensures Range(Carried(s), 16, 0, 65535)
  {
    assert CarryIn(s, 0) == 0;
    SmallCarries(s, 16);
  }

  /** What one step of the pass computes: the next carry, and the limb left behind. */
  lemma CarryStep(s: seq<int>, i: nat)
    requires i < 16 == |s| && Range(s, 16, -CARRY_LIMIT, CARRY_LIMIT)
    ensures -0x4fff_ffff_ffff <= CarryIn(s, i) <= 0x4fff_ffff_ffff
    ensures -0x4fff_ffff_ffff <= CarryIn(s, i + 1) <= 0x4fff_ffff_ffff
    ensures var v := s[i] + CarryIn(s, i) + 65536;
      Shr(v, RADIX) - 1 == CarryIn(s, i + 1) && v - Shr(v, RADIX) * 65536 == Remainder(s, i)
  {
    CarryBound(s, i, 0x2700_0000_0000);
    CarryBound(s, i + 1, 0x2700_0000_0000);
  }

  method Car25519(o: array<i64>)
    requires IsGf(o) && Within(o, CARRY_LIMIT)
    modifies o
    ensures o[..] == Carried(old(o[..]))
  {
    ghost var s := o[..];
    for i := 0 to 16
      invariant forall k :: 1 <= k < i ==> o[k] == Remainder(s, k)
      invariant 0 < i ==> o[0] == Remainder(s, 0) + if i == 16 then 38 * CarryIn(s, 16) else 0
      invariant i < 16 ==> o[i] == s[i] + CarryIn(s, i)
      invariant forall k :: i < k < 16 ==> o[k] == s[k]
    {
      CarryStep(s, i);
      o[i] := I64(o[i] + 0x1_0000);
      var c := Shr(o[i], RADIX);
      var top := if i == 15 then 1 else 0;
      var next := if i < 15 then i + 1 else 0;
      assert c - 1 == CarryIn(s, i + 1);
      o[next] := I64(o[next] + I64(I64(c - 1) + I64(I64(37 * I64(c - 1)) * top)));
      o[i] := I64(o[i] - I64(c * 65536));
    }
  }

  // --------------------------------------------------------------- operations

  method Set25519(r: array<i64>, a: array<i64>)
    requires IsGf(r) && IsGf(a)
    modifies r
    ensures r[..] == old(a[..])
  {
    for i := 0 to 16
      invariant forall k :: 0 <= k < i ==> r[k] == old(a[k])
      invariant r != a ==> a[..] == old(a[..])
      invariant r == a ==> forall k :: i <= k < 16 ==> r[k] == old(a[k])
    {
      r[i] := a[i];
    }
  }

  method A(o: array<i64>, a: array<i64>, b: array<i64>, ghost bound: int)
    requires IsGf(o) && IsGf(a) && IsGf(b)
    requires Within(a, bound) && Within(b, bound) && bound <= FACTOR_LIMIT
    modifies o
    ensures V(o) == old(V(a)) + old(V(b))
    ensures Within(o, 2 * bound)
  {
    ghost var s, t := a[..], b[..];
    for i := 0 to 16
      invariant forall k :: 0 <= k < i ==> o[k] == s[k] + t[k]
      invariant forall k :: i <= k < 16 ==> a[k] == s[k] && b[k] == t[k]
    {
      o[i] := I64(a[i] + b[i]);
    }
    EvalLinear(s, t, o[..], 1, RADIX, 16);
  }

  method Z(o: array<i64>, a: array<i64>, b: array<i64>, ghost bound: int)
    requires IsGf(o) && IsGf(a) && IsGf(b)
    requires Within(a, bound) && Within(b, bound) && bound <= FACTOR_LIMIT
    modifies o
    ensures V(o) == old(V(a)) - old(V(b))
    ensures Within(o, 2 * bound)
  {
    ghost var s, t := a[..], b[..];
    for i := 0 to 16
      invariant forall k :: 0 <= k < i ==> o[k] == s[k] - t[k]
      invariant forall k :: i <= k < 16 ==> a[k] == s[k] && b[k] == t[k]
    {
      o[i] := I64(a[i] - b[i]);
    }
    EvalLinear(s, t, o[..], -1, RADIX, 16);
  }

  /** One partial product lands on the digit of its combined weight. */
  lemma ProductStep(t: seq<int>, a: seq<int>, b: seq<int>, i: nat, j: nat)
    requires |t| == 31 && |a| == |b| == 16 && i < 16 && j < 16
    ensures Eval(t[i + j := t[i + j] + a[i] * b[j]], RADIX, 31) == Eval(t, RADIX, 31)
      + a[i] * Pow(RADIX, i) * Eval(b, RADIX, j + 1) - a[i] * Pow(RADIX, i) * Eval(b, RADIX, j)
  {
    EvalUpdate(t, RADIX, 31, i + j, t[i + j] + a[i] * b[j]);
    PowAdd(RADIX, i, j);
    PartialProduct(a[i], b[j], Pow(RADIX, i), Pow(RADIX, j), Eval(b, RADIX, j));
  }

  lemma PartialProduct(x: int, y: int, p: int, q: int, e: int)
    ensures (x * y) * (p * q) == x * p * (e + y * q) - x * p * e
  {
    assert (x * y) * (p * q) == (x * p) * (y * q);
  }

  lemma Distribute(x: int, y: int, z: int)
    ensures (x + y) * z == x * z + y * z
  {
  }

  lemma FactorBound(x: int, y: int)
    requires -FACTOR_LIMIT <= x <= FACTOR_LIMIT && -FACTOR_LIMIT <= y <= FACTOR_LIMIT
    ensures -0x10_0000_0000_0000 <= x * y <= 0x10_0000_0000_0000
  {
    if y >= 0 {
      MulMono(x, FACTOR_LIMIT, y);
      MulMono(-FACTOR_LIMIT, x, y);
    } else {
      MulMono(x, FACTOR_LIMIT, -y);
      MulMono(-FACTOR_LIMIT, x, -y);
    }
  }

  /** Folding the high half back with weight 38 keeps the field element. */
  lemma FoldValue(t: seq<int>, u: seq<int>)
    requires |t| == 31 && |u| == 16
    requires forall k :: 0 <= k < 15 ==> u[k] == t[k] + 38 * t[k + 16]
    requires u[15] == t[15]
    ensures Equal(Value(u), Eval(t, RADIX, 31))
  {
    var h := t[16..];
    EvalLinear(t, h, u, 38, RADIX, 15);
    EvalSplit(t, RADIX, 16, 15);
    RadixPower();
    var e := Eval(h, RADIX, 15);
    assert Value(u) - Eval(t, RADIX, 31) == (-2 * e) * P;
    CongIntro(P, Value(u), Eval(t, RADIX, 31), -2 * e);
  }

  /** Folding and two carry passes turn a product into tight limbs of the same element. */
  lemma TwoPasses(t: seq<int>, u: seq<int>)
    requires |t| == 31 && |u| == 16
    requires Range(t, 31, -0x100_0000_0000_0000, 0x100_0000_0000_0000)
    requires forall k :: 0 <= k < 15 ==> u[k] == t[k] + 38 * t[k + 16]
    requires u[15] == t[15]
    ensures Range(u, 16, -CARRY_LIMIT, CARRY_LIMIT)
    ensures var v := Carried(u);
      Range(v, 16, -CARRY_LIMIT, CARRY_LIMIT)
      && Tight(Carried(v)) && Equal(Value(Carried(v)), Eval(t, RADIX, 31))
  {
    var v := Carried(u);
    forall k | 0 <= k < 16
      ensures -CARRY_LIMIT <= u[k] <= CARRY_LIMIT
    {
      assert k < 15 ==> u[k] == t[k] + 38 * t[k + 16];
    }
    FoldValue(t, u);
    FirstPass(u);
    SecondPass(v);
    CarriedValue(u);
    CarriedValue(v);
    CongTrans(P, Value(Carried(v)), Value(v), Value(u));
    CongTrans(P, Value(Carried(v)), Value(u), Eval(t, RADIX, 31));
  }

  /** The schoolbook product: the first two loops of M. */
  method Product(a: array<i64>, b: array<i64>) returns (t: array<i64>)
    requires IsGf(a) && IsGf(b)
    requires Within(a, FACTOR_LIMIT) && Within(b, FACTOR_LIMIT)
    ensures fresh(t) && t.Length == 31
    ensures Eval(t[..], RADIX, 31) == V(a) * V(b)
    ensures Range(t[..], 31, -0x100_0000_0000_0000, 0x100_0000_0000_0000)
  {
    t := new i64[31](_ => 0);
    EvalZero(t[..], RADIX, 31);
    for i := 0 to 16
      modifies t
      invariant Eval(t[..], RADIX, 31) == Eval(a[..], RADIX, i) * V(b)
      invariant Range(t[..], 31, -i * 0x10_0000_0000_0000, i * 0x10_0000_0000_0000)
    {
      ghost var row := a[i] * Pow(RADIX, i);
      for j := 0 to 16
        modifies t
        invariant Eval(t[..], RADIX, 31) == Eval(a[..], RADIX, i) * V(b) + row * Eval(b[..], RADIX, j)
        invariant Range(t[..], 31, -(i + 1) * 0x10_0000_0000_0000, (i + 1) * 0x10_0000_0000_0000)
        invariant forall k :: i + j <= k < 31 ==> -i * 0x10_0000_0000_0000 <= t[k] <= i * 0x10_0000_0000_0000
      {
        ghost var before := t[..];
        FactorBound(a[i], b[j]);
        ProductStep(before, a[..], b[..], i, j);
        t[i + j] := I64(t[i + j] + I64(a[i] * b[j]));
        assert t[..] == before[i + j := before[i + j] + a[i] * b[j]];
      }
      Distribute(Eval(a[..], RADIX, i), row, V(b));
    }
  }

  method M(o: array<i64>, a: array<i64>, b: array<i64>)
    requires IsGf(o) && IsGf(a) && IsGf(b)
    requires Within(a, FACTOR_LIMIT) && Within(b, FACTOR_LIMIT)
    modifies o
    ensures Equal(V(o), old(V(a)) * old(V(b)))
    ensures Tight(o[..]) && Within(o, TIGHT)
  {
    var t := Product(a, b);
    ghost var product := t[..];
    for i := 0 to 15
      modifies t
      invariant forall k :: 0 <= k < i ==> t[k] == product[k] + 38 * product[k + 16]
      invariant forall k :: i <= k < 31 ==> t[k] == product[k]
    {
      t[i] := I64(t[i] + I64(38 * t[i + 16]));
    }
    ghost var folded := t[..16];
    TwoPasses(product, folded);
    for i := 0 to 16
      modifies o
      invariant forall k :: 0 <= k < i ==> o[k] == folded[k]
    {
      o[i] := t[i];
    }
    assert o[..] == folded;
    Car25519(o);
    Car25519(o);
  }

  method S(o: array<i64>, a: array<i64>)
    requires IsGf(o) && IsGf(a) && Within(a, FACTOR_LIMIT)
    modifies o
    ensures Equal(V(o), old(V(a)) * old(V(a)))
    ensures Tight(o[..]) && Within(o, TIGHT)
  {
    M(o, a, a);
  }

  // ------------------------------------------------------- selection and packing

  /** The masked exchange of two words: exchanged when b is 1, kept when b is 0. */
  lemma MaskedSwap(x: i64, y: i64, b: int)
    requires b == 0 || b == 1
    ensures var t := And(-b, Xor(x, y, WORD), WORD);
      && -TWO_63 <= t < TWO_63
      && Xor(x, t, WORD) == (if b == 1 then y else x)
      && Xor(y, t, WORD) == (if b == 1 then x else y)
  {
    Powers();
    XorFits(x, y, WORD);
    AndExtremes(Xor(x, y, WORD), WORD);
    XorCancels(x, y, WORD);
    XorSymmetric(x, y, WORD);
    XorCancels(y, x, WORD);
    XorZero(x, WORD);
    XorZero(y, WORD);
  }

  /** The mask is written ~(b - 1), which is -b. */
  method Sel25519(p: array<i64>, q: array<i64>, b: int)
    requires IsGf(p) && IsGf(q) && p != q
    requires b == 0 || b == 1
    modifies p, q
    ensures p[..] == (if b == 1 then old(q[..]) else old(p[..]))
    ensures q[..] == (if b == 1 then old(p[..]) else old(q[..]))
  {
    var c := I64(-I64(b - 1) - 1);
    for i := 0 to 16
      invariant forall k :: 0 <= k < i ==> p[k] == (if b == 1 then old(q[k]) else old(p[k]))
      invariant forall k :: 0 <= k < i ==> q[k] == (if b == 1 then old(p[k]) else old(q[k]))
      invariant forall k :: i <= k < 16 ==> p[k] == old(p[k]) && q[k] == old(q[k])
    {
      MaskedSwap(p[i], q[i], b);
      var t := And(c, Xor(p[i], q[i], WORD), WORD);
      p[i] := Xor(p[i], t, WORD);
      q[i] := Xor(q[i], t, WORD);
    }
  }

  /** The limbs of P, subtracted by the freeze: 0xffed, fourteen times 0xffff, 0x7fff. */
  function PLimb(k: nat): int
  {
    if k == 0 then 0xffed else if k < 15 then 0xffff else 0x7fff
  }

  lemma PLimbsValue(s: seq<int>)
    requires |s| == 16 && forall k :: 0 <= k < 16 ==> s[k] == PLimb(k)
    ensures Value(s) == P
  {
    PLimbsPrefix(s, 15);
    RadixPower();
  }

  lemma {:induction false} PLimbsPrefix(s: seq<int>, n: nat)
    requires |s| == 16 && forall k :: 0 <= k < 16 ==> s[k] == PLimb(k)
    requires 1 <= n <= 15
    ensures Eval(s, RADIX, n) == Pow(RADIX, n) - 19
  {
    if n != 1 {
      PLimbsPrefix(s, n - 1);
    } else {
      assert Eval(s, RADIX, 0) == 0;
    }
  }

  /** The borrow bit and the masked limb of a difference of two limbs. */
  lemma BorrowBits(x: int)
    requires -0x1_0000 <= x <= 0xffff
    ensures var b := And(Shr(x, RADIX), 1, WORD);
      b == (if x < 0 then 1 else 0) && And(x, 0xffff, WORD) == x + 0x1_0000 * b
  {
    LowBit(Shr(x, RADIX));
    LowWord(x);
  }

  /** Moving a borrow from one limb to the next keeps the value of the difference. */
  lemma BorrowStep(m: seq<int>, n: seq<int>, t: seq<int>, p: seq<int>, i: nat, b: int)
    requires |m| == |n| == |t| == |p| == 16 && 1 <= i < 16
    requires Eval(m, RADIX, i) == Eval(t, RADIX, i) - Eval(p, RADIX, i)
    requires forall k :: 0 <= k < i - 1 ==> n[k] == m[k]
    requires n[i - 1] == m[i - 1] + RADIX * b && n[i] == t[i] - p[i] - b
    ensures Eval(n, RADIX, i + 1) == Eval(t, RADIX, i + 1) - Eval(p, RADIX, i + 1)
  {
    EvalSame(m, n, RADIX, i - 1);
    var w := Pow(RADIX, i - 1);
    assert (m[i - 1] + RADIX * b) * w == m[i - 1] * w + b * (RADIX * w);
    var v := Pow(RADIX, i);
    assert (t[i] - p[i] - b) * v == t[i] * v - p[i] * v - b * v;
  }

  /** A top limb below zero means a negative value, and conversely. */
  lemma TopLimbSign(m: seq<int>)
    requires |m| == 16 && Range(m, 15, 0, 65535)
    ensures m[15] < 0 <==> Value(m) < 0
  {
    EvalBounds(m, RADIX, 15);
    var w := Pow(RADIX, 15);
    MulMono(m[15], -1, w);
    MulMono(0, m[15], w);
  }

  /** The trial subtraction of P, limb by limb with a borrow. */
  method SubtractP(m: array<i64>, t: array<i64>) returns (b: int)
    requires IsGf(m) && IsGf(t) && m != t && Range(t[..], 16, 0, 65535)
    modifies m
    ensures V(m) == V(t) - P && Range(m[..], 15, 0, 65535) && m[15] <= 65535
    ensures b == (if V(t) < P then 1 else 0)
  {
    ghost var p := seq(16, k requires 0 <= k < 16 => PLimb(k));
    PLimbsValue(p);
    m[0] := I64(t[0] - 0xffed);
    assert Eval(m[..], RADIX, 0) == Eval(t[..], RADIX, 0) == Eval(p, RADIX, 0) == 0;
    for i := 1 to 15
      invariant Range(m[..], i - 1, 0, 65535) && -0x1_0000 <= m[i - 1] <= 0xffff
      invariant Eval(m[..], RADIX, i) == Eval(t[..], RADIX, i) - Eval(p, RADIX, i)
    {
      ghost var before := m[..];
      BorrowBits(m[i - 1]);
      m[i] := I64(t[i] - 0xffff - And(Shr(m[i - 1], RADIX), 1, WORD));
      m[i - 1] := And(m[i - 1], 0xffff, WORD);
      BorrowStep(before, m[..], t[..], p, i, if before[i - 1] < 0 then 1 else 0);
    }
    ghost var before := m[..];
    BorrowBits(m[14]);
    m[15] := I64(t[15] - 0x7fff - And(Shr(m[14], RADIX), 1, WORD));
    BorrowBits(m[15]);
    b := And(Shr(m[15], RADIX), 1, WORD);
    m[14] := And(m[14], 0xffff, WORD);
    BorrowStep(before, m[..], t[..], p, 15, if before[14] < 0 then 1 else 0);
    TopLimbSign(m[..]);
  }

  function Join(low: int, high: int): int
  {
    low + 256 * high
  }

  lemma JoinWeight(low: int, high: int, w: int)
    ensures Join(low, high) * w == low * w + high * (256 * w)
  {
  }

  lemma {:induction false} BytesOfLimbs(o: seq<u8>, t: seq<int>, n: nat)
    requires 2 * n <= |o| && n <= |t|
    requires forall k :: 0 <= k < n ==> t[k] == Join(o[2 * k], o[2 * k + 1])
    ensures Eval(o, 256, 2 * n) == Eval(t, RADIX, n)
  {
    if n != 0 {
      BytesOfLimbs(o, t, n - 1);
      PowSquare(n - 1);
      assert Pow(256, 2 * n - 1) == 256 * Pow(256, 2 * n - 2);
      assert Eval(o, 256, 2 * n - 1) == Eval(o, 256, 2 * n - 2) + o[2 * n - 2] * Pow(256, 2 * n - 2);
      JoinWeight(o[2 * n - 2], o[2 * n - 1], Pow(RADIX, n - 1));
    }
  }

  lemma PowSquare(n: nat)
    ensures Pow(256, 2 * n) == Pow(RADIX, n)
  {
    if n != 0 {
      PowSquare(n - 1);
      assert Pow(256, 2 * n) == 256 * (256 * Pow(256, 2 * n - 2));
    }
  }

  /** The first two carries of the freeze bring factor-sized limbs to tight ones. */
  lemma FreezePasses(n: seq<int>)
    requires |n| == 16 && Range(n, 16, -FACTOR_LIMIT, FACTOR_LIMIT)
    ensures var t := Carried(n); var u := Carried(t); var w := Carried(u);
      && Range(t, 16, -CARRY_LIMIT, CARRY_LIMIT) && Range(u, 16, -CARRY_LIMIT, CARRY_LIMIT)
      && Range(w, 16, 0, 65535) && Equal(Value(w), Value(n))
  {
    var t := Carried(n);
    var u := Carried(t);
    FirstPass(n);
    SecondPass(t);
    LastPass(u);
    CarriedValue(n);
    CarriedValue(t);
    CarriedValue(u);
    CongTrans(P, Value(Carried(u)), Value(u), Value(t));
    CongTrans(P, Value(Carried(u)), Value(t), Value(n));
  }

  lemma SplitLimb(x: int)
    requires 0 <= x <= 65535
    ensures And(x, 0xff, WORD) == x % 256 && 0 <= Shr(x, 256) < 256
    ensures x == Join(x % 256, Shr(x, 256))
  {
    LowByte(x);
  }

  /** Two conditional subtractions of P bring any sixteen normalised limbs below P. */
  method SubtractTwice(t: array<i64>)
    requires IsGf(t) && Range(t[..], 16, 0, 65535)
    modifies t
    ensures V(t) == old(V(t)) % P
    ensures Range(t[..], 16, 0, 65535)
  {
    var m := new i64[16](_ => 0);
    ghost var v := V(t);
    ghost var taken := 0;
    EvalBounds(t[..], RADIX, 16);
    RadixPower();
    for j := 0 to 2
      invariant Range(t[..], 16, 0, 65535)
      invariant V(t) == v - taken * P && 0 <= V(t) && 0 <= taken <= j
      invariant taken == j || V(t) < P
    {
      var b := SubtractP(m, t);
      TopLimbSign(m[..]);
      Sel25519(t, m, 1 - b);
      taken := taken + 1 - b;
    }
    DivUnique(P, v, taken, V(t));
  }

  /** Writes normalised limbs as bytes. */
  method WriteLimbs(o: array<u8>, t: array<i64>)
    requires o.Length == 32 && IsGf(t) && Range(t[..], 16, 0, 65535)
    modifies o
    ensures Le(o[..]) == old(V(t))
  {
    ghost var u := t[..];
    for i := 0 to 16
      modifies o
      invariant forall k :: 0 <= k < i ==> u[k] == Join(o[2 * k], o[2 * k + 1])
    {
      SplitLimb(u[i]);
      o[2 * i] := And(t[i], 0xff, WORD);
      o[2 * i + 1] := Shr(t[i], 256);
    }
    BytesOfLimbs(o[..], u, 16);
  }

  /** Freezing: the unique little-endian representative in [0, P). */
  method Pack25519(o: array<u8>, n: array<i64>)
    requires o.Length == 32 && IsGf(n) && Within(n, FACTOR_LIMIT)
    modifies o
    ensures Le(o[..]) == old(V(n)) % P
  {
    var t := new i64[16](_ => 0);
    Set25519(t, n);
    FreezePasses(n[..]);
    CongIsSameMod(P, Value(Carried(Carried(Carried(n[..])))), V(n));
    Car25519(t);
    Car25519(t);
    Car25519(t);
    SubtractTwice(t);
    WriteLimbs(o, t);
  }

  method Neq25519(a: array<i64>, b: array<i64>) returns (neq: int)
    requires IsGf(a) && IsGf(b) && Within(a, FACTOR_LIMIT) && Within(b, FACTOR_LIMIT)
    ensures neq == if Equal(V(a), V(b)) then 0 else 1
  {
    var c, d := new u8[32](_ => 0), new u8[32](_ => 0);
    Pack25519(c, a);
    Pack25519(d, b);
    var eq := Util.CtEq(c[..], d[..]);
    CongIsSameMod(P, V(a), V(b));
    if Equal(V(a), V(b)) {
      EvalInjective(c[..], d[..], 256, 32);
    }
    neq := if eq != 0 then 0 else 1;
  }

  method Par25519(a: array<i64>) returns (parity: u8)
    requires IsGf(a) && Within(a, FACTOR_LIMIT)
    ensures parity == V(a) % P % 2
  {
    var d := new u8[32](_ => 0);
    Pack25519(d, a);
    LeParity(d[..], 32);
    Powers();
    AndMask(d[0], 1, BYTE);
    parity := And(d[0], 1, BYTE);
  }

  lemma EvenWeight(d: int, w: int, e: int)
    ensures (e + d * (256 * w)) % 2 == e % 2
  {
    assert d * (256 * w) == 2 * (128 * (d * w));
  }

  lemma {:induction false} LeParity(s: seq<u8>, n: nat)
    requires 1 <= n <= |s|
    ensures Eval(s, 256, n) % 2 == s[0] % 2
  {
    if n != 1 {
      LeParity(s, n - 1);
      EvenWeight(s[n - 1], Pow(256, n - 2), Eval(s, 256, n - 1));
    } else {
      assert Eval(s, 256, 0) == 0;
    }
  }

  /** Dropping the top bit of the top limb is the remainder modulo 2^255. */
  lemma DropTopBit(t: seq<int>, x: int)
    requires |t| == 16 && Range(t, 16, 0, 65535) && x == t[15]
    ensures And(x, 0x7fff, WORD) == x % 0x8000
    ensures Value(t[15 := x % 0x8000]) == Value(t) % (P + 19)
  {
    Powers();
    AndMask(x, 15, WORD);
    var u := t[15 := x % 0x8000];
    EvalBounds(u, RADIX, 15);
    EvalUpdate(t, RADIX, 16, 15, x % 0x8000);
    RadixPower();
    var w := Pow(RADIX, 15);
    assert Value(u) == Eval(u, RADIX, 15) + (x % 0x8000) * w;
    MulMono(x % 0x8000, 0x7fff, w);
    MulMono(0, x % 0x8000, w);
    DivUnique(P + 19, Value(t), x / 0x8000, Value(u));
  }

  /** Reads 32 bytes and drops the top bit. */
  method Unpack25519(o: array<i64>, n: seq<u8>)
    requires IsGf(o) && |n| == 32
    modifies o
    ensures V(o) == Le(n) % (P + 19)
    ensures Range(o[..], 16, 0, 65535)
  {
    for i := 0 to 16
      invariant forall k :: 0 <= k < i ==> o[k] == Join(n[2 * k], n[2 * k + 1])
    {
      o[i] := I64(Join(n[2 * i], n[2 * i + 1]));
    }
    ghost var t := o[..];
    BytesOfLimbs(n, t, 16);
    DropTopBit(t, o[15]);
    o[15] := And(o[15], 0x7fff, WORD);
    assert o[..] == t[15 := t[15] % 0x8000];
  }
}
