/** What the bitwise operators and shifts do to each bit. */
module BitLaws {
  import opened Digits
  import opened Bits
  import Modular

  lemma {:induction false} XorBit(x: int, y: int, w: nat, j: nat)
    requires j < w
    ensures BitOf(Xor(x, y, w), j) == (BitOf(x, j) + BitOf(y, j)) % 2
    decreases w
  {
    XorHalves(x, y, w);
    if j > 0 {
      XorBit(x / 2, y / 2, w - 1, j - 1);
    }
  }

  lemma {:induction false} OrBitwise(x: int, y: int, w: nat, j: nat)
    requires j < w
    ensures BitOf(Or(x, y, w), j) == if BitOf(x, j) == 1 || BitOf(y, j) == 1 then 1 else 0
    decreases w
  {
    OrHalves(x, y, w);
    if j > 0 {
      OrBitwise(x / 2, y / 2, w - 1, j - 1);
    }
  }

  lemma AndHalves(x: int, y: int, w: nat)
    requires w > 0
    ensures And(x, y, w) % 2 == (if x % 2 == 1 && y % 2 == 1 then 1 else 0)
    ensures And(x, y, w) / 2 == And(x / 2, y / 2, w - 1)
  {
    var b := if x % 2 == 1 && y % 2 == 1 then 1 else 0;
    LowestBit(b, And(x / 2, y / 2, w - 1));
  }

  lemma LowestBit(b: int, r: int)
    requires 0 <= b <= 1
    ensures (b + 2 * r) % 2 == b && (b + 2 * r) / 2 == r
  {
  }

  lemma {:induction false} AndBitwise(x: int, y: int, w: nat, j: nat)
    requires j < w
    ensures BitOf(And(x, y, w), j) == if BitOf(x, j) == 1 && BitOf(y, j) == 1 then 1 else 0
    decreases w
  {
    AndHalves(x, y, w);
    if j > 0 {
      AndBitwise(x / 2, y / 2, w - 1, j - 1);
    }
  }

  /** Shifting down. */
  lemma {:induction false} BitsDown(x: int, n: nat, j: nat)
    ensures BitOf(x / Pow2(n), j) == BitOf(x, n + j)
    decreases n
  {
    if n != 0 {
      BitsDown(x / 2, n - 1, j);
      HalfQuotient(x, Pow2(n - 1));
    }
  }

  /** A number has no bits above its width. */
  lemma {:induction false} NoBitsAbove(x: int, w: nat, j: nat)
    requires 0 <= x < Pow2(w) && w <= j
    ensures BitOf(x, j) == 0
    decreases j
  {
    if j > 0 {
      NoBitsAbove(x / 2, if w == 0 then 0 else w - 1, j - 1);
    }
  }

  /** Shifting up. */
  lemma {:induction false} BitsUp(x: int, n: nat, j: nat)
    ensures BitOf(x * Pow2(n), j) == if j < n then 0 else BitOf(x, j - n)
    decreases n
  {
    if n != 0 {
      var y := x * Pow2(n - 1);
      assert x * Pow2(n) == 2 * y;
      if j > 0 {
        BitsUp(x, n - 1, j - 1);
      }
    }
  }

  /** Keeping the low bits. */
  lemma {:induction false} BitsKept(x: int, w: nat, j: nat)
    requires j < w
    ensures BitOf(x % Pow2(w), j) == BitOf(x, j)
    decreases w
  {
    HalveMod(x, Pow2(w - 1));
    var y := x % Pow2(w);
    assert y % 2 == x % 2 && y / 2 == (x / 2) % Pow2(w - 1);
    if j > 0 {
      BitsKept(x / 2, w - 1, j - 1);
    }
  }

  /** All bits turned. */
  lemma {:induction false} BitsTurned(x: int, w: nat, j: nat)
    requires j < w
    ensures BitOf(Pow2(w) - 1 - x, j) == 1 - BitOf(x, j)
    decreases w
  {
    assert (Pow2(w) - 1 - x) / 2 == Pow2(w - 1) - 1 - x / 2;
    if j > 0 {
      BitsTurned(x / 2, w - 1, j - 1);
    }
  }

  /** A word of w bits rotated to the right. */
  lemma BitsRotated(x: int, n: nat, w: nat, j: nat)
    requires 0 <= x < Pow2(w) && 0 < n < w && j < w
    ensures BitOf(Or(x / Pow2(n), x * Pow2(w - n) % Pow2(w), w), j) == BitOf(x, (j + n) % w)
  {
    OrBitwise(x / Pow2(n), x * Pow2(w - n) % Pow2(w), w, j);
    BitsDown(x, n, j);
    BitsKept(x * Pow2(w - n), w, j);
    BitsUp(x, w - n, j);
    if j + n < w {
      Modular.SmallMod(j + n, w);
    } else {
      NoBitsAbove(x, w, n + j);
      Modular.DivUnique(w, j + n, 1, j + n - w);
    }
  }
}
