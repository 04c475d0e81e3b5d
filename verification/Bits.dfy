/** The bitwise operators of C on two's-complement integers. A value of width w lies in
    [-2^w, 2^w): its w low bits are its parities under repeated halving, its sign is the rest. */
module Bits {
  import opened Words
  import opened Digits
  import Modular

  const WORD: nat := 63  // i64
  const BYTE: nat := 8   // u8

  ghost predicate Fits(x: int, w: nat)
  {
    -Pow(2, w) <= x < Pow(2, w)
  }

  function Xor(x: int, y: int, w: nat): int
    decreases w, x, y  // not w alone: literal widths must not be unfolded eagerly
  {
    if w == 0 then if (x < 0) != (y < 0) then -1 else 0
    else (x + y) % 2 + 2 * Xor(x / 2, y / 2, w - 1)
  }

  function And(x: int, y: int, w: nat): int
    decreases w, x, y  // not w alone: literal widths must not be unfolded eagerly
  {
    if w == 0 then if x < 0 && y < 0 then -1 else 0
    else (if x % 2 == 1 && y % 2 == 1 then 1 else 0) + 2 * And(x / 2, y / 2, w - 1)
  }

  function Or(x: int, y: int, w: nat): int
    decreases w, x, y  // not w alone: literal widths must not be unfolded eagerly
  {
    if w == 0 then if x < 0 || y < 0 then -1 else 0
    else (if x % 2 == 1 || y % 2 == 1 then 1 else 0) + 2 * Or(x / 2, y / 2, w - 1)
  }

  lemma {:induction false} XorFits(x: int, y: int, w: nat)
    ensures Fits(Xor(x, y, w), w)
    ensures x >= 0 && y >= 0 ==> Xor(x, y, w) >= 0
    decreases w
  {
    if w != 0 {
      XorFits(x / 2, y / 2, w - 1);
    }
  }

  lemma {:induction false} AndFits(x: int, y: int, w: nat)
    ensures Fits(And(x, y, w), w)
    ensures x >= 0 || y >= 0 ==> And(x, y, w) >= 0
    decreases w
  {
    if w != 0 {
      AndFits(x / 2, y / 2, w - 1);
    }
  }

  lemma {:induction false} OrFits(x: int, y: int, w: nat)
    ensures Fits(Or(x, y, w), w)
    ensures x >= 0 && y >= 0 ==> Or(x, y, w) >= 0
    decreases w
  {
    if w != 0 {
      OrFits(x / 2, y / 2, w - 1);
    }
  }

  lemma XorHalves(x: int, y: int, w: nat)
    requires w > 0
    ensures Xor(x, y, w) % 2 == (x + y) % 2
    ensures Xor(x, y, w) / 2 == Xor(x / 2, y / 2, w - 1)
  {
  }

  lemma {:induction false} XorSymmetric(x: int, y: int, w: nat)
    ensures Xor(x, y, w) == Xor(y, x, w)
    decreases w
  {
    if w != 0 {
      XorSymmetric(x / 2, y / 2, w - 1);
    }
  }

  /** Xor undoes itself. */
  lemma {:induction false} XorCancels(x: int, y: int, w: nat)
    requires Fits(x, w) && Fits(y, w)
    ensures Xor(x, Xor(x, y, w), w) == y
    decreases w
  {
    if w != 0 {
      var v := Xor(x, y, w);
      var u := Xor(x, v, w);
      HalfFits(x, w);
      HalfFits(y, w);
      XorCancels(x / 2, y / 2, w - 1);
      XorHalves(x, y, w);
      XorHalves(x, v, w);
      CancelBit(x, y, v);
      Halves(u, y);
    }
  }

  lemma CancelBit(x: int, y: int, v: int)
    requires v % 2 == (x + y) % 2
    ensures (x + v) % 2 == y % 2
  {
  }

  lemma {:induction false} XorZero(x: int, w: nat)
    requires Fits(x, w)
    ensures Xor(x, 0, w) == x
    decreases w
  {
    if w != 0 {
      XorZero(x / 2, w - 1);
    }
  }

  lemma HalfFits(x: int, w: nat)
    requires w > 0 && Fits(x, w)
    ensures Fits(x / 2, w - 1)
  {
  }

  /** Xor is zero exactly on equal operands. */
  lemma {:induction false} XorIsZero(x: int, y: int, w: nat)
    requires Fits(x, w) && Fits(y, w)
    ensures Xor(x, y, w) == 0 <==> x == y
    decreases w
  {
    if w != 0 {
      HalfFits(x, w);
      HalfFits(y, w);
      XorIsZero(x / 2, y / 2, w - 1);
      XorHalves(x, y, w);
      Halves(x, y);
      Halves(Xor(x, y, w), 0);
    }
  }

  lemma Halves(x: int, y: int)
    ensures x == y <==> x / 2 == y / 2 && x % 2 == y % 2
    ensures (x + y) % 2 == 0 <==> x % 2 == y % 2
  {
  }

  lemma {:induction false} OrIsZero(x: int, y: int, w: nat)
    requires Fits(x, w) && Fits(y, w)
    ensures Or(x, y, w) == 0 <==> x == 0 && y == 0
    decreases w
  {
    if w != 0 {
      OrIsZero(x / 2, y / 2, w - 1);
    }
  }

  /** A mask of all ones keeps everything, a mask of all zeros nothing. */
  lemma {:induction false} AndExtremes(x: int, w: nat)
    requires Fits(x, w)
    ensures And(-1, x, w) == x && And(0, x, w) == 0
    decreases w
  {
    if w != 0 {
      AndExtremes(x / 2, w - 1);
    }
  }

  /** Masking with 2^k - 1 is the remainder modulo 2^k. */
  lemma {:induction false} AndMask(x: int, k: nat, w: nat)
    requires k <= w && Fits(x, w)
    ensures Pow(2, k) > 0 && And(x, Pow(2, k) - 1, w) == x % Pow(2, k)
    decreases w
  {
    PowPositive(2, k);
    if k == 0 {
      AndZero(x, w);
    } else {
      var m := Pow(2, k - 1);
      PowPositive(2, k - 1);
      AndMask(x / 2, k - 1, w - 1);
      assert (Pow(2, k) - 1) / 2 == m - 1;
      HalveMod(x, m);
    }
  }

  lemma {:induction false} AndZero(x: int, w: nat)
    ensures And(x, 0, w) == 0
    decreases w
  {
    if w != 0 {
      AndZero(x / 2, w - 1);
    }
  }

  lemma HalveMod(x: int, m: int)
    requires m > 0
    ensures x % (2 * m) == x % 2 + 2 * ((x / 2) % m)
  {
    var q, r := (x / 2) / m, (x / 2) % m;
    assert x / 2 == q * m + r;
    assert x == q * (2 * m) + (x % 2 + 2 * r);
    Modular.DivUnique(2 * m, x, q, x % 2 + 2 * r);
  }

  /** Setting or toggling a top bit that is clear adds it. */
  lemma {:induction false} TopBit(x: int, k: nat, w: nat)
    requires k < w && 0 <= x < Pow(2, k)
    ensures Xor(x, Pow(2, k), w) == x + Pow(2, k)
    ensures Or(x, Pow(2, k), w) == x + Pow(2, k)
    decreases w
  {
    if k == 0 {
      PowPositive(2, w - 1);
      XorZero(0, w - 1);
      OrZeroes(w - 1);
    } else {
      TopBit(x / 2, k - 1, w - 1);
    }
  }

  lemma {:induction false} OrZero(x: int, w: nat)
    requires Fits(x, w)
    ensures Or(x, 0, w) == x
    decreases w
  {
    if w != 0 {
      OrZero(x / 2, w - 1);
    }
  }

  /** Masking with a single top bit selects it. */
  lemma {:induction false} AndTopBit(x: int, k: nat, w: nat)
    requires k < w && 0 <= x < 2 * Pow(2, k)
    ensures And(x, Pow(2, k), w) == if x >= Pow(2, k) then Pow(2, k) else 0
    decreases w
  {
    if k == 0 {
      AndZero(x / 2, w - 1);
    } else {
      AndTopBit(x / 2, k - 1, w - 1);
    }
  }

  lemma {:induction false} OrZeroes(w: nat)
    ensures Or(0, 0, w) == 0
  {
    if w != 0 {
      OrZeroes(w - 1);
    }
  }

  lemma Powers()
    ensures Pow(2, 63) == TWO_63 && Pow(2, 16) == 0x1_0000
    ensures Pow(2, 8) == 256 && Pow(2, 7) == 128 && Pow(2, 1) == 2 && Pow(2, 15) == 0x8000
    ensures Pow(2, 4) == 16 && Pow(2, 5) == 32
  {
    assert Pow(2, 7) == 128;
    PowAdd(2, 8, 7);
    PowAdd(2, 8, 8);
    PowAdd(2, 16, 16);
    PowAdd(2, 32, 16);
    PowAdd(2, 48, 15);
  }

  lemma LowBit(x: int)
    requires -TWO_63 <= x < TWO_63
    ensures And(x, 1, WORD) == x % 2
  {
    Powers();
    AndMask(x, 1, WORD);
  }

  lemma LowWord(x: int)
    requires -TWO_63 <= x < TWO_63
    ensures And(x, 0xffff, WORD) == x % 0x1_0000
  {
    Powers();
    AndMask(x, 16, WORD);
  }

  lemma LowByte(x: int)
    requires -TWO_63 <= x < TWO_63
    ensures And(x, 0xff, WORD) == x % 256
  {
    Powers();
    AndMask(x, 8, WORD);
  }

  /** Or of a shifted value and bits below the shift is their sum. */
  lemma {:induction false} OrDisjoint(a: int, y: int, k: nat, w: nat)
    requires k <= w && 0 <= y < Pow(2, k) && 0 <= a && Fits(a * Pow(2, k), w)
    ensures Or(a * Pow(2, k), y, w) == a * Pow(2, k) + y
    decreases w
  {
    if k == 0 {
      OrZero(a, w);
    } else {
      var x := a * Pow(2, k - 1);
      assert a * Pow(2, k) == 2 * x;
      HalfFits(2 * x, w);
      OrDisjoint(a, y / 2, k - 1, w - 1);
    }
  }

  lemma {:induction false} OrSymmetric(x: int, y: int, w: nat)
    ensures Or(x, y, w) == Or(y, x, w)
    decreases w
  {
    if w != 0 {
      OrSymmetric(x / 2, y / 2, w - 1);
    }
  }

  /** Bit k of a number. */
  function BitOf(b: int, k: nat): (bit: int)
    ensures 0 <= bit <= 1
    decreases k, b
  {
    if k == 0 then b % 2 else BitOf(b / 2, k - 1)
  }

  /** A shift brings bit k down to bit 0. */
  lemma {:induction false} ShiftedBit(b: int, k: nat)
    ensures Shr(b, Pow2(k)) % 2 == BitOf(b, k)
    decreases k
  {
    if k != 0 {
      ShiftedBit(b / 2, k - 1);
      HalfQuotient(b, Pow2(k - 1));
    }
  }

  lemma HalfQuotient(b: int, d: int)
    requires d > 0
    ensures b / (2 * d) == (b / 2) / d
  {
    var q, r := (b / 2) / d, (b / 2) % d;
    assert b / 2 == q * d + r;
    assert b == q * (2 * d) + (2 * r + b % 2);
    Modular.DivUnique(2 * d, b, q, 2 * r + b % 2);
  }

  function Pow2(k: nat): int
    ensures Pow2(k) > 0
  {
    PowPositive(2, k);
    Pow(2, k)
  }

  lemma ShrSmaller(x: int, d: int)
    requires x >= 0 && d > 0
    ensures 0 <= x / d <= x
  {
    MulMono(1, d, x / d);
  }

  /** Setting one bit. */
  lemma {:induction false} OrBit(x: int, k: nat, w: nat, j: nat)
    requires k < w && j < w
    ensures BitOf(Or(x, Pow2(k), w), j) == if j == k then 1 else BitOf(x, j)
    decreases w
  {
    var y := Or(x, Pow2(k), w);
    OrHalves(x, Pow2(k), w);
    if k > 0 && j > 0 {
      OrBit(x / 2, k - 1, w - 1, j - 1);
    } else if j > 0 {
      OrZeroBit(x / 2, w - 1, j - 1);
    }
  }

  lemma OrHalves(x: int, y: int, w: nat)
    requires w > 0
    ensures Or(x, y, w) % 2 == (if x % 2 == 1 || y % 2 == 1 then 1 else 0)
    ensures Or(x, y, w) / 2 == Or(x / 2, y / 2, w - 1)
  {
  }

  lemma {:induction false} OrZeroBit(x: int, w: nat, j: nat)
    requires j < w
    ensures BitOf(Or(x, 0, w), j) == BitOf(x, j)
    decreases w
  {
    OrHalves(x, 0, w);
    if j > 0 {
      OrZeroBit(x / 2, w - 1, j - 1);
    }
  }

  /** Testing one bit. */
  lemma {:induction false} AndBit(x: int, k: nat, w: nat)
    requires k < w
    ensures And(x, Pow2(k), w) != 0 <==> BitOf(x, k) == 1
    decreases w
  {
    if k == 0 {
      AndZero(x / 2, w - 1);
    } else {
      AndBit(x / 2, k - 1, w - 1);
    }
  }
}
