/** A 32-bit bit buffer that wraps: it holds the low bits of a number that grows without bound. */
module ShiftRegister {
  import opened Words
  import opened Digits
  import opened Modular
  import opened Bits

  const WIDTH: nat := 32

  lemma WidthPower()
    ensures Pow(2, WIDTH) == TWO_32
  {
    var b := 2;
    assert Pow(2, 8) == 256;
    PowAdd(b, 8, 8);
    PowAdd(b, 16, 16);
  }

  lemma PushMod(n: int, v: int, k: int, r: int)
    requires k > 0 && r > 0 && 0 <= v < k
    ensures k * r > 0 && (n * k + v) % (k * r) == (n % r) * k + v
  {
    var q, m, w := n / r, n % r, k * r;
    MulMono(1, r, k);
    assert w > 0 && n == q * r + m;
    MulMono(m + 1, r, k);
    assert (m + 1) * k == m * k + k;
    MulMono(0, m, k);
    Distribute(q, r, m, k);
    DivUnique(w, n * k + v, q, m * k + v);
  }

  lemma Distribute(q: int, r: int, m: int, k: int)
    ensures (q * r + m) * k == q * (k * r) + m * k
  {
    assert (q * r) * k == q * (k * r);
  }

  /** What wraps around does not reach the low bits. */
  lemma WrapMod(n: int, k: int, r: int)
    requires k > 0 && r > 0
    ensures k * r > 0 && (n % (k * r)) % r == n % r
  {
    MulMono(1, r, k);
    var w := k * r;
    assert w > 0;
    var t, d := n / w, n % w;
    assert n == t * w + d;
    assert t * w == (t * k) * r;
    CongIntro(r, n, d, t * k);
    CongIsSameMod(r, n, d);
  }

  /** Shifting k bits in. */
  lemma Push(buffer: int, n: int, v: int, k: nat)
    requires k <= WIDTH && n >= 0 && buffer == n % TWO_32 && 0 <= v < Pow(2, k)
    ensures Or((buffer * Pow(2, k)) % TWO_32, v, WIDTH) == (n * Pow(2, k) + v) % TWO_32
    ensures (buffer * Pow(2, k)) % TWO_32 == (n * Pow(2, k)) % TWO_32
  {
    WidthPower();
    PowAdd(2, k, WIDTH - k);
    PowPositive(2, k);
    PowPositive(2, WIDTH - k);
    PushMod(n, v, Pow(2, k), Pow(2, WIDTH - k));
    PushMod(n, 0, Pow(2, k), Pow(2, WIDTH - k));
    WrapMod(n, Pow(2, k), Pow(2, WIDTH - k));
    PushMod(buffer, 0, Pow(2, k), Pow(2, WIDTH - k));
    OrDisjoint(n % Pow(2, WIDTH - k), v, k, WIDTH);
  }

  lemma TakeMod(n: int, b: int, m: int, r: int)
    requires b > 0 && m > 0 && r > 0
    ensures (b * m) * r > 0
    ensures ((n % ((b * m) * r)) / b) % m == (n / b) % m
    ensures 0 <= (n % ((b * m) * r)) / b < m * r
  {
    var w := (b * m) * r;
    assert m * r > 0;
    assert w == (m * r) * b;
    assert w > 0;
    var t, d := n / w, n % w;
    assert n == t * w + d;
    var e := d / b;
    DivUnique(b, n, t * (m * r) + e, d % b);
    CongIntro(m, n / b, e, t * r);
    CongIsSameMod(m, n / b, e);
    MulMono(m * r, e, b);
    MulMono(e, -1, b);
  }

  lemma TakeValue(buffer: int, n: int, b: nat, m: nat, r: nat)
    requires b + m + r == WIDTH && n >= 0 && buffer == n % TWO_32
    ensures Pow(2, b) > 0 && Pow(2, m) > 0
    ensures (buffer / Pow(2, b)) % Pow(2, m) == (n / Pow(2, b)) % Pow(2, m)
    ensures 0 <= buffer / Pow(2, b) < Pow(2, WIDTH)
  {
    WidthPower();
    PowAdd(2, b, m);
    PowAdd(2, b + m, r);
    PowPositive(2, b);
    PowPositive(2, m);
    PowPositive(2, r);
    TakeMod(n, Pow(2, b), Pow(2, m), Pow(2, r));
    PowAdd(2, m, r);
    PowGrows(2, m + r, WIDTH);
  }

  /** Reading m bits above the lowest ones. */
  lemma Take(buffer: int, n: int, bits: nat, m: nat)
    requires bits + m <= WIDTH && n >= 0 && buffer == n % TWO_32
    ensures Pow(2, bits) > 0 && Pow(2, m) > 0
    ensures And(Shr(buffer, Pow(2, bits)), Pow(2, m) - 1, WIDTH) == (n / Pow(2, bits)) % Pow(2, m)
  {
    TakeValue(buffer, n, bits, m, WIDTH - bits - m);
    AndMask(Shr(buffer, Pow(2, bits)), m, WIDTH);
  }
}
