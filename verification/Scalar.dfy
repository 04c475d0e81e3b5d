/** Scalars modulo the group order: reduction of a 64-byte hash, and the range check on S. */
module Scalar {
  import opened Words
  import opened Digits
  import opened Modular
  import opened Bits

  const L: int := 0x1000_0000_0000_0000_0000_0000_0000_0000_14de_f9de_a2f7_9cd6_5812_631a_5cf5_d3ed
  const DELTA: int := 0x14de_f9de_a2f7_9cd6_5812_631a_5cf5_d3ed

  const TWO_256: int := 0x1_0000_0000_0000_0000_0000_0000_0000_0000_0000_0000_0000_0000_0000_0000_0000_0000

  const L_DIGITS: seq<u8> := [
    0xed, 0xd3, 0xf5, 0x5c, 0x1a, 0x63, 0x12, 0x58,
    0xd6, 0x9c, 0xf7, 0xa2, 0xde, 0xf9, 0xde, 0x14,
    0, 0, 0, 0, 0, 0, 0, 0,
    0, 0, 0, 0, 0, 0, 0, 0x10]

  /** What is used of the table: normalised digits whose value is the group order. */
  ghost predicate IsOrder(l: seq<u8>)
  {
    && |l| == 32
    && (forall k :: 16 <= k < 20 ==> l[k] == 0)
    && Eval(l, 256, 20) == DELTA && Eval(l, 256, 32) == L
  }

  method Order() returns (l: seq<u8>)
    ensures IsOrder(l)
  {
    l := L_DIGITS;
    LLow(l);
    assert forall k :: 16 <= k < 31 ==> l[k] == 0;
    LHigh(l);
  }

  lemma LHigh(l: seq<int>)
    requires |l| == 32 && Eval(l, 256, 16) == DELTA
    requires (forall k :: 16 <= k < 31 ==> l[k] == 0) && l[31] == 0x10
    ensures Eval(l, 256, 20) == DELTA && Eval(l, 256, 32) == L
  {
    TrailingZeros(l, 16, 20);
    TrailingZeros(l, 16, 31);
    PowersOf256();
  }

  lemma TopOfOrder()
    ensures 16 * L == Pow(256, 32) + 16 * DELTA
  {
    PowersOf256();
  }

  lemma PowersOf256()
    ensures Pow(256, 32) == TWO_256
    ensures Pow(256, 31) * 256 == Pow(256, 32)
  {
    var b := 256;
    assert Pow(256, 4) == 0x1_0000_0000;
    PowAdd(b, 4, 4);
    PowAdd(b, 8, 8);
    PowAdd(b, 16, 16);
  }

  lemma LLow(s: seq<int>)
    requires |s| >= 16
    requires s[0] == 0xed && s[1] == 0xd3 && s[2] == 0xf5 && s[3] == 0x5c
    requires s[4] == 0x1a && s[5] == 0x63 && s[6] == 0x12 && s[7] == 0x58
    requires s[8] == 0xd6 && s[9] == 0x9c && s[10] == 0xf7 && s[11] == 0xa2
    requires s[12] == 0xde && s[13] == 0xf9 && s[14] == 0xde && s[15] == 0x14
    ensures Eval(s, 256, 16) == DELTA
  {
    var b := 256;
    EvalFour(s, b, 0);
    EvalFour(s, b, 4);
    EvalFour(s, b, 8);
    EvalFour(s, b, 12);
    PowAdd(b, 4, 4);
    PowAdd(b, 8, 4);
    assert Pow(b, 4) == 0x1_0000_0000;
  }

  lemma {:induction false} TrailingZeros(s: seq<int>, m: nat, n: nat)
    requires m <= n <= |s| && forall k :: m <= k < n ==> s[k] == 0
    ensures Eval(s, 256, n) == Eval(s, 256, m)
    decreases n - m
  {
    if m < n {
      TrailingZeros(s, m, n - 1);
    }
  }

  // --------------------------------------------------------------------- modL

  /** How often row i subtracts L, for a digit q: 16 q 256^(i - 32). */
  function Multiple(q: int, base: nat): int
  {
    16 * q * Pow(256, base)
  }

  /** One digit step of a row: a multiple of one digit of L leaves, a carry moves up. */
  lemma RowStep(l: seq<int>, x: seq<int>, y: seq<int>, total: int, base: nat, u: nat, q: int, carry: int, next: int)
    requires |x| == |y| == 64 && u < |l| && base + u < 64
    requires y == x[base + u := x[base + u] + carry - 16 * q * l[u] - next * 256]
    requires Eval(x, 256, 64) + carry * Pow(256, base + u)
          == total - Multiple(q, base) * Eval(l, 256, u)
    ensures Eval(y, 256, 64) + next * Pow(256, base + u + 1)
         == total - Multiple(q, base) * Eval(l, 256, u + 1)
  {
    var d, w, e := l[u], Pow(256, base + u), Eval(l, 256, u);
    EvalUpdate(x, 256, 64, base + u, x[base + u] + carry - 16 * q * d - next * 256);
    PowAdd(256, base, u);
    assert Eval(l, 256, u + 1) == e + d * Pow(256, u);
    StepTerms(q, d, Pow(256, base), Pow(256, u), e, carry, next);
  }

  lemma StepTerms(q: int, d: int, p: int, w: int, e: int, carry: int, next: int)
    ensures (carry - 16 * q * d - next * 256) * (p * w)
         == carry * (p * w) - (16 * q * p) * (e + d * w) + (16 * q * p) * e - next * (256 * (p * w))
  {
    var m := 16 * q;
    assert (carry - m * d - next * 256) * (p * w)
        == carry * (p * w) - (m * d) * (p * w) - next * (256 * (p * w));
    assert (m * d) * (p * w) == (m * p) * (d * w);
    assert (m * p) * (e + d * w) == (m * p) * e + (m * p) * (d * w);
  }

  lemma DigitBound(q: int, d: int)
    requires -129 <= q <= 256 && 0 <= d <= 255
    ensures -0xff000 <= 16 * q * d <= 0xff000
  {
    MulMono(-129, q, d);
    MulMono(q, 256, d);
  }

  /** The carry of a row before digit u of L is taken: wide over the sixteen low digits of L,
      then shrinking over the zeros. */
  ghost predicate RowCarry(u: nat, carry: int)
  {
    && -4100 <= carry <= 4100
    && (u == 17 ==> -18 <= carry <= 18)
    && (u >= 18 ==> -1 <= carry <= 1)
  }

  lemma NextCarry(u: nat, x: int, q: int, d: int, carry: int)
    requires u < 20 && RowCarry(u, carry) && -129 <= x <= 256
    requires -129 <= q <= 256 && 0 <= d <= 255 && (u >= 16 ==> d == 0)
    ensures -0x20_0000 <= x + carry - 16 * q * d <= 0x20_0000
    ensures RowCarry(u + 1, Shr(x + carry - 16 * q * d + 128, 256))
  {
    var m := 16 * q * d;
    DigitBound(q, d);
    assert u >= 16 ==> m == 0;
  }

  /** The inner loop of a row: twenty digits give up 16 x[i] times a digit of L each. */
  method EliminateRow(x: array<i64>, l: seq<u8>, i: nat) returns (carry: int)
    requires x.Length == 64 && 32 <= i < 64 && IsOrder(l)
    requires Range(x[..], 64, -129, 256)
    modifies x
    ensures -1 <= carry <= 1
    ensures forall k :: i - 32 <= k < i - 12 ==> -128 <= x[k] <= 127
    ensures forall k :: 0 <= k < 64 && !(i - 32 <= k < i - 12) ==> x[k] == old(x[k])
    ensures Eval(x[..], 256, 64) + carry * Pow(256, i - 12)
         == old(Eval(x[..], 256, 64)) - Multiple(old(x[i]), i - 32) * DELTA
  {
    ghost var before, q, base := x[..], x[i], i - 32;
    ghost var total := Eval(before, 256, 64);
    carry := 0;
    assert Eval(l, 256, 0) == 0;
    for j := i - 32 to i - 12
      invariant RowCarry(j - base, carry)
      invariant forall k :: base <= k < j ==> -128 <= x[k] <= 127
      invariant forall k :: 0 <= k < 64 && !(base <= k < j) ==> x[k] == before[k]
      invariant Eval(x[..], 256, 64) + carry * Pow(256, j)
             == total - Multiple(q, base) * Eval(l, 256, j - base)
    {
      ghost var xs, c, d := x[..], carry, l[j - base];
      NextCarry(j - base, x[j], q, d, carry);
      DigitBound(q, d);
      x[j] := I64(x[j] + I64(carry - I64(I64(16 * x[i]) * l[j - (i - 32)])));
      assert x[j] == xs[j] + c - 16 * q * d;
      carry := Shr(I64(x[j] + 128), 256);
      x[j] := I64(x[j] - I64(carry * 256));
      assert x[..] == xs[j := xs[j] + c - 16 * q * d - carry * 256];
      RowStep(l, xs, x[..], total, base, j - base, q, c, carry);
    }
  }

  /** Eliminates digit i by subtracting x[i] * 256^(i-32) * 16 L, whose top digit is 1. */
  method EliminateDigit(x: array<i64>, l: seq<u8>, i: nat)
    requires x.Length == 64 && 32 <= i < 64 && IsOrder(l)
    requires Range(x[..], 64, -129, 256)
    modifies x
    ensures Eval(x[..], 256, 64) == old(Eval(x[..], 256, 64)) - Multiple(old(x[i]), i - 32) * L
    ensures forall k :: i - 32 <= k < i - 12 ==> -128 <= x[k] <= 127
    ensures old(x[i - 12]) - 1 <= x[i - 12] <= old(x[i - 12]) + 1
    ensures x[i] == 0
    ensures forall k :: 0 <= k < 64 && !(i - 32 <= k <= i - 12) && k != i ==> x[k] == old(x[k])
  {
    ghost var total := Eval(x[..], 256, 64);
    var carry := EliminateRow(x, l, i);
    ghost var xs: seq<int> := x[..];
    x[i - 12] := I64(x[i - 12] + carry);
    x[i] := 0;
    assert x[..] == xs[i - 12 := xs[i - 12] + carry][i := 0];
    RowEnd(xs, i, carry, total);
  }

  /** Clearing the digit completes the subtraction of 16 L. */
  lemma RowEnd(xs: seq<int>, i: nat, carry: int, total: int)
    requires |xs| == 64 && 32 <= i < 64
    requires Eval(xs, 256, 64) + carry * Pow(256, i - 12) == total - Multiple(xs[i], i - 32) * DELTA
    ensures Eval(xs[i - 12 := xs[i - 12] + carry][i := 0], 256, 64)
         == total - Multiple(xs[i], i - 32) * L
  {
    var ys := xs[i - 12 := xs[i - 12] + carry];
    EvalUpdate(xs, 256, 64, i - 12, xs[i - 12] + carry);
    EvalUpdate(ys, 256, 64, i, 0);
    PowAdd(256, i - 32, 32);
    TopOfOrder();
    TopTerm(xs[i], Pow(256, i - 32), L - DELTA);
  }

  lemma TopTerm(q: int, p: int, r: int)
    ensures (0 - q) * (p * (16 * r)) == (16 * q * p) * DELTA - (16 * q * p) * (DELTA + r)
  {
  }

  /** The digits while rows are eliminated, i being the next row plus one: touched digits are
      centred, those that took a final carry may be one off, the rest are still bytes. */
  ghost predicate Eliminating(x: seq<int>, i: nat)
  {
    && |x| == 64 && 32 <= i <= 64
    && (forall k :: i <= k < 64 ==> x[k] == 0)
    && (forall k :: 0 <= k < i ==> -129 <= x[k] <= 256)
    && (forall k :: 0 <= k < i - 12 ==> -128 <= x[k] <= 255)
    && (i < 64 ==> forall k :: i - 32 <= k < i - 12 && k <= 50 ==> -128 <= x[k] <= 127)
    && (i < 64 ==> forall k :: i - 32 <= k < i && k <= 50 ==> -129 <= x[k] <= 128)
  }

  lemma EliminateOne(x: seq<int>, y: seq<int>, i: nat)
    requires 32 <= i < 64 && Eliminating(x, i + 1) && |y| == 64
    requires forall k :: i - 32 <= k < i - 12 ==> -128 <= y[k] <= 127
    requires x[i - 12] - 1 <= y[i - 12] <= x[i - 12] + 1 && y[i] == 0
    requires forall k :: 0 <= k < 64 && !(i - 32 <= k <= i - 12) && k != i ==> y[k] == x[k]
    ensures Eliminating(y, i)
  {
  }

  /** The first loop of modL: everything above 2^256 is traded for multiples of L. */
  method EliminateAll(x: array<i64>, l: seq<u8>)
    requires IsOrder(l) && x.Length == 64 && Range(x[..], 64, 0, 255)
    modifies x
    ensures Eliminating(x[..], 32)
    ensures Cong(L, Eval(x[..], 256, 64), old(Eval(x[..], 256, 64)))
  {
    ghost var v := Eval(x[..], 256, 64);
    CongIntro(L, v, v, 0);
    for i := 64 downto 32
      invariant Eliminating(x[..], i)
      invariant Cong(L, Eval(x[..], 256, 64), v)
    {
      ghost var before := x[..];
      EliminateDigit(x, l, i);
      EliminateOne(before, x[..], i);
      ghost var now, was := Eval(x[..], 256, 64), Eval(before, 256, 64);
      CongIntro(L, now, was, -Multiple(before[i], i - 32));
      CongTrans(L, now, was, v);
    }
  }

  /** A value whose lower digits are at most 129 in size is dominated by its top digit. */
  lemma {:induction false} CentredBound(x: seq<int>, n: nat)
    requires Range(x, n, -129, 128)
    ensures -129 * (Pow(256, n) - 1) <= 255 * Eval(x, 256, n) <= 128 * (Pow(256, n) - 1)
  {
    if n != 0 {
      CentredBound(x, n - 1);
      var w := Pow(256, n - 1);
      PowPositive(256, n - 1);
      MulMono(-129, x[n - 1], w);
      MulMono(x[n - 1], 128, w);
    }
  }

  /** One subtraction of L per sixteen of the top digit leaves a value in (-L, L). */
  lemma QuotientFits(x: seq<int>)
    requires |x| == 64 && Range(x, 32, -129, 128)
    ensures -L < Eval(x, 256, 32) - Shr(x[31], 16) * L < L
  {
    CentredBound(x, 31);
    PowersOf256();
    var q, m := Shr(x[31], 16), x[31] % 16;
    assert x[31] == 16 * q + m;
  }

  /** The second loop's digit step. */
  lemma SubtractStep(l: seq<int>, x: seq<int>, y: seq<int>, z: seq<int>, j: nat, q: int, c: int, d: int)
    requires |l| == 32 && |x| == |y| == |z| == 64 && j < 32
    requires forall k :: 0 <= k < j ==> z[k] == y[k]
    requires x[j] + c - q * l[j] == z[j] + 256 * d
    requires Eval(y, 256, j) + c * Pow(256, j) == Eval(x, 256, j) - q * Eval(l, 256, j)
    ensures Eval(z, 256, j + 1) + d * Pow(256, j + 1) == Eval(x, 256, j + 1) - q * Eval(l, 256, j + 1)
  {
    EvalSame(y, z, 256, j);
    var w, e := Pow(256, j), Eval(l, 256, j);
    assert (z[j] + 256 * d) * w == z[j] * w + d * (256 * w);
    assert (x[j] + c - q * l[j]) * w == x[j] * w + c * w - (q * l[j]) * w;
    assert q * (e + l[j] * w) == q * e + (q * l[j]) * w;
  }

  lemma SmallProduct(q: int, d: int)
    requires -9 <= q <= 8 && 0 <= d <= 255
    ensures -2295 <= q * d <= 2295
  {
    MulMono(-9, q, d);
    MulMono(q, 9, d);
  }

  /** The second loop of modL: subtracts (x[31] >> 4) L and normalises the digits. */
  method SubtractQuotient(x: array<i64>, l: seq<u8>) returns (carry: int)
    requires x.Length == 64 && Range(x[..], 32, -129, 128) && IsOrder(l)
    modifies x
    ensures Range(x[..], 32, 0, 255) && forall k :: 32 <= k < 64 ==> x[k] == old(x[k])
    ensures Eval(x[..], 256, 32) + carry * Pow(256, 32)
         == old(Eval(x[..], 256, 32)) - Shr(old(x[31]), 16) * L
    ensures -20 <= carry <= 20
  {
    ghost var before, q := x[..], Shr(x[31], 16);
    carry := 0;
    assert Eval(l, 256, 0) == 0;
    for j := 0 to 32
      invariant -20 <= carry <= 20 && Range(x[..], j, 0, 255)
      invariant forall k :: j <= k < 64 ==> x[k] == before[k]
      invariant forall k :: 32 <= k < 64 ==> x[k] == before[k]
      invariant Eval(x[..], 256, j) + carry * Pow(256, j) == Eval(before, 256, j) - q * Eval(l, 256, j)
    {
      ghost var xs, c := x[..], carry;
      SmallProduct(q, l[j]);
      x[j] := I64(x[j] + I64(carry - I64(Shr(x[31], 16) * l[j])));
      carry := Shr(x[j], 256);
      LowByte(x[j]);
      x[j] := And(x[j], 255, WORD);
      SubtractStep(l, before, xs, x[..], j, q, c, carry);
    }
  }

  /** Subtracts the carry's multiple of L from the digits, in place. */
  method SubtractMultiple(x: array<i64>, l: seq<u8>, carry: int)
    requires x.Length == 64 && IsOrder(l)
    requires Range(x[..], 32, 0, 255) && -1 <= carry <= 0
    modifies x
    ensures Eval(x[..], 256, 32) == old(Eval(x[..], 256, 32)) - carry * L
    ensures Range(x[..], 32, 0, 510) && forall k :: 32 <= k < 64 ==> x[k] == old(x[k])
  {
    ghost var before := x[..];
    for j := 0 to 32
      invariant forall k :: 0 <= k < j ==> x[k] == before[k] - carry * l[k]
      invariant forall k :: j <= k < 64 ==> x[k] == before[k]
    {
      x[j] := I64(x[j] - I64(carry * l[j]));
    }
    EvalLinear(before, l, x[..], -carry, 256, 32);
  }

  /** Writes the digits with their carries; what leaves the top is dropped. */
  method WriteDigits(r: array<u8>, x: array<i64>)
    requires r.Length == 64 && x.Length == 64 && Range(x[..], 32, 0, 510) && x[32] == 0
    modifies r, x
    ensures Eval(r[..], 256, 32) == old(Eval(x[..], 256, 32)) % TWO_256
    ensures forall k :: 32 <= k < 64 ==> r[k] == old(r[k])
  {
    ghost var y := x[..];
    assert Eval(r[..], 256, 0) == Eval(y, 256, 0) == 0;
    for i := 0 to 32
      invariant forall k :: i < k < 64 ==> x[k] == y[k]
      invariant 0 <= x[i] - y[i] <= 3
      invariant forall k :: 32 <= k < 64 ==> r[k] == old(r[k])
      invariant Eval(r[..], 256, i) + (x[i] - y[i]) * Pow(256, i) == Eval(y, 256, i)
    {
      ghost var rs, c := r[..], x[i] - y[i];
      x[i + 1] := I64(x[i + 1] + Shr(x[i], 256));
      LowByte(x[i]);
      r[i] := And(x[i], 255, WORD);
      EvalSame(rs, r[..], 256, i);
      FinishStep(r[i], Shr(x[i], 256), y[i], c, Pow(256, i));
    }
    DropTop(r[..], y, x[32]);
  }

  /** The last two loops of modL: undo the subtraction if it went below zero, and carry once
      more; what leaves the thirty-second digit is dropped. */
  method Finish(r: array<u8>, x: array<i64>, l: seq<u8>, carry: int)
    requires r.Length == 64 && x.Length == 64 && IsOrder(l)
    requires Range(x[..], 32, 0, 255) && x[32] == 0 && -1 <= carry <= 0
    modifies r, x
    ensures Eval(r[..], 256, 32) == old(Eval(x[..], 256, 32) - carry * L) % TWO_256
    ensures forall k :: 32 <= k < 64 ==> r[k] == old(r[k])
  {
    SubtractMultiple(x, l, carry);
    WriteDigits(r, x);
  }

  lemma DropTop(r: seq<u8>, y: seq<int>, top: int)
    requires |r| == 64 && |y| == 64
    requires Eval(r, 256, 32) + top * Pow(256, 32) == Eval(y, 256, 32)
    ensures Eval(r, 256, 32) == Eval(y, 256, 32) % TWO_256
  {
    EvalBounds(r, 256, 32);
    PowersOf256();
    DivUnique(TWO_256, Eval(y, 256, 32), top, Eval(r, 256, 32));
  }

  lemma FinishStep(digit: int, next: int, y: int, c: int, w: int)
    requires y + c == digit + 256 * next
    ensures c * w + y * w == digit * w + next * (256 * w)
  {
    assert (y + c) * w == (digit + 256 * next) * w;
  }

  method ModL(r: array<u8>, x: array<i64>)
    requires r.Length == 64 && x.Length == 64 && Range(x[..], 64, 0, 255)
    modifies r, x
    ensures Eval(r[..], 256, 32) == old(Eval(x[..], 256, 64)) % L
    ensures forall k :: 32 <= k < 64 ==> r[k] == old(r[k])
  {
    ghost var v := Eval(x[..], 256, 64);
    var l := Order();
    EliminateAll(x, l);
    ghost var xs := x[..];
    TrailingZeros(xs, 32, 64);
    QuotientFits(xs);
    var carry := SubtractQuotient(x, l);
    FinalCarry(xs, x[..], carry, v);
    Finish(r, x, l, carry);
  }

  /** The carry out of the second loop is 0 or -1, and undoing a borrow gives v mod L. */
  lemma FinalCarry(xs: seq<int>, ys: seq<int>, carry: int, v: int)
    requires |xs| == |ys| == 64 && Range(ys, 32, 0, 255)
    requires Cong(L, Eval(xs, 256, 32), v)
    requires var n := Eval(xs, 256, 32) - Shr(xs[31], 16) * L;
      -L < n < L && Eval(ys, 256, 32) + carry * Pow(256, 32) == n
    ensures -1 <= carry <= 0
    ensures (Eval(ys, 256, 32) - carry * L) % TWO_256 == v % L
  {
    EvalBounds(ys, 256, 32);
    PowersOf256();
    var q, d := Shr(xs[31], 16), Eval(ys, 256, 32);
    var r := d + carry * Pow(256, 32) - carry * L;
    CongIsSameMod(L, Eval(xs, 256, 32), v);
    DivUnique(L, Eval(xs, 256, 32), q + carry, r);
    DivUnique(TWO_256, d - carry * L, -carry, r);
  }

  /** reduce: a 64-byte little-endian number, modulo L, in place. */
  method Reduce(r: array<u8>)
    requires r.Length == 64
    modifies r
    ensures Eval(r[..], 256, 32) == old(Eval(r[..], 256, 64)) % L
    ensures forall k :: 32 <= k < 64 ==> r[k] == 0
  {
    var x := new i64[64](_ => 0);
    ghost var before := r[..];
    for i := 0 to 64
      modifies x
      invariant forall k :: 0 <= k < i ==> x[k] == r[k]
    {
      x[i] := r[i];
    }
    assert x[..] == before;
    for i := 0 to 64
      modifies r
      invariant forall k :: 0 <= k < i ==> r[k] == 0
    {
      r[i] := 0;
    }
    assert x[..] == before;
    ModL(r, x);
  }

  // -------------------------------------------------------------- range check

  /** scalar_is_reduced: S < L, decided from the top byte down. */
  method ScalarIsReduced(s: seq<u8>) returns (reduced: bool)
    requires |s| == 32
    ensures reduced <==> Eval(s, 256, 32) < L
  {
    var l := Order();
    for i := 32 downto 0
      invariant Eval(s, 256, 32) - Eval(l, 256, 32) == Eval(s, 256, i) - Eval(l, 256, i)
    {
      CompareAt(s, l, i);
      if s[i] < l[i] {
        return true;
      }
      if s[i] > l[i] {
        return false;
      }
    }
    return false;
  }

  /** The highest differing digit decides. */
  lemma CompareAt(s: seq<int>, l: seq<int>, i: nat)
    requires i < |s| && i < |l| && Range(s, |s|, 0, 255) && Range(l, |l|, 0, 255)
    ensures s[i] < l[i] ==> Eval(s, 256, i + 1) < Eval(l, 256, i + 1)
    ensures s[i] > l[i] ==> Eval(s, 256, i + 1) > Eval(l, 256, i + 1)
    ensures s[i] == l[i] ==>
      Eval(s, 256, i + 1) - Eval(l, 256, i + 1) == Eval(s, 256, i) - Eval(l, 256, i)
  {
    EvalBounds(s, 256, i);
    EvalBounds(l, 256, i);
    var w := Pow(256, i);
    MulMono(s[i] + 1, l[i], w);
    MulMono(l[i] + 1, s[i], w);
    assert (s[i] + 1) * w == s[i] * w + w && (l[i] + 1) * w == l[i] * w + w;
  }
}
