/** Positional values of digit arrays, least significant digit first. Digits may be negative
    or exceed the base: limbs between two carries are not normalised. */
module Digits {

  function Pow(b: int, k: nat): int
  {
    if k == 0 then 1 else b * Pow(b, k - 1)
  }

  /** The value of the first n digits of s in base b. */
  function Eval(s: seq<int>, b: int, n: nat): int
    requires n <= |s|
  {
    if n == 0 then 0 else Eval(s, b, n - 1) + s[n - 1] * Pow(b, n - 1)
  }

  lemma MulMono(x: int, y: int, w: int)
    requires w >= 0
    ensures x <= y ==> x * w <= y * w
  {
    if x <= y {
      assert (y - x) * w >= 0;
    }
  }

  /** Every one of the first n entries lies in [lo, hi]. */
  ghost predicate Range(s: seq<int>, n: nat, lo: int, hi: int)
  {
    n <= |s| && forall k :: 0 <= k < n ==> lo <= s[k] <= hi
  }

  lemma {:induction false} PowAdd(b: int, i: nat, j: nat)
    ensures Pow(b, i + j) == Pow(b, i) * Pow(b, j)
  {
    if i != 0 {
      PowAdd(b, i - 1, j);
      var p, q := Pow(b, i - 1), Pow(b, j);
      assert b * (p * q) == (b * p) * q;
    }
  }

  lemma {:induction false} PowPow(b: int, k: nat, n: nat)
    ensures k * n >= 0 && Pow(b, k * n) == Pow(Pow(b, k), n)
    decreases n
  {
    if n != 0 {
      PowPow(b, k, n - 1);
      assert k * n == k * (n - 1) + k;
      PowAdd(b, k * (n - 1), k);
    }
  }

  lemma {:induction false} PowProduct(x: int, y: int, n: nat)
    ensures Pow(x * y, n) == Pow(x, n) * Pow(y, n)
    decreases n
  {
    if n != 0 {
      PowProduct(x, y, n - 1);
      Interleave(x, y, Pow(x, n - 1), Pow(y, n - 1));
    }
  }

  lemma Interleave(x: int, y: int, p: int, q: int)
    ensures (x * y) * (p * q) == (x * p) * (y * q)
  {
    assert (x * y) * p == (x * p) * y;
    assert ((x * p) * y) * q == (x * p) * (y * q);
  }

  lemma {:induction false} PowPositive(b: int, k: nat)
    requires b > 0
    ensures Pow(b, k) > 0
  {
    if k != 0 {
      PowPositive(b, k - 1);
    }
  }

  lemma {:induction false} PowGrows(b: int, i: nat, j: nat)
    requires b >= 1 && i <= j
    ensures Pow(b, i) <= Pow(b, j)
  {
    if i < j {
      PowGrows(b, i, j - 1);
      PowPositive(b, j - 1);
    }
  }

  /** Digits that agree have the same value. */
  lemma {:induction false} EvalSame(s: seq<int>, t: seq<int>, b: int, n: nat)
    requires n <= |s| && n <= |t|
    requires forall k :: 0 <= k < n ==> s[k] == t[k]
    ensures Eval(s, b, n) == Eval(t, b, n)
  {
    if n != 0 {
      EvalSame(s, t, b, n - 1);
    }
  }

  lemma TermChange(v: int, d: int, w: int)
    ensures (v - d) * w == v * w - d * w
  {
  }

  /** Changing one digit changes the value by that digit's weight. */
  lemma {:induction false} EvalUpdate(s: seq<int>, b: int, n: nat, i: nat, v: int)
    requires n <= |s| && i < |s|
    ensures Eval(s[i := v], b, n) == Eval(s, b, n) + if i < n then (v - s[i]) * Pow(b, i) else 0
  {
    if n != 0 {
      EvalUpdate(s, b, n - 1, i, v);
      if i == n - 1 {
        TermChange(v, s[i], Pow(b, i));
      }
    }
  }

  /** Eval is linear in the digits. */
  lemma {:induction false} EvalLinear(s: seq<int>, t: seq<int>, u: seq<int>, c: int, b: int, n: nat)
    requires n <= |s| && n <= |t| && n <= |u|
    requires forall k :: 0 <= k < n ==> u[k] == s[k] + c * t[k]
    ensures Eval(u, b, n) == Eval(s, b, n) + c * Eval(t, b, n)
  {
    if n != 0 {
      EvalLinear(s, t, u, c, b, n - 1);
      var w, e := Pow(b, n - 1), Eval(t, b, n - 1);
      var x, y := s[n - 1], t[n - 1];
      assert (x + c * y) * w == x * w + c * (y * w);
      assert c * (e + y * w) == c * e + c * (y * w);
    }
  }

  lemma SplitTerm(p: int, q: int, e: int, d: int)
    ensures p * (e + d * q) == p * e + d * (p * q)
  {
  }

  /** A value splits into a low part and a high part. */
  lemma {:induction false} EvalSplit(s: seq<int>, b: int, m: nat, n: nat)
    requires m + n <= |s|
    ensures Eval(s, b, m + n) == Eval(s, b, m) + Pow(b, m) * Eval(s[m..], b, n)
  {
    if n != 0 {
      EvalSplit(s, b, m, n - 1);
      PowAdd(b, m, n - 1);
      assert s[m..][n - 1] == s[m + n - 1];
      SplitTerm(Pow(b, m), Pow(b, n - 1), Eval(s[m..], b, n - 1), s[m + n - 1]);
    }
  }

  /** Four digits at a time, for evaluating constants. */
  lemma EvalFour(s: seq<int>, b: int, n: nat)
    requires n + 4 <= |s|
    ensures Eval(s, b, n + 4)
         == Eval(s, b, n) + Pow(b, n) * (s[n] + b * (s[n + 1] + b * (s[n + 2] + b * s[n + 3])))
  {
    Nest(Pow(b, n), b, s[n], s[n + 1], s[n + 2], s[n + 3]);
    assert Eval(s, b, n + 2) == Eval(s, b, n) + s[n] * Pow(b, n) + s[n + 1] * Pow(b, n + 1);
  }

  lemma Nest(p: int, b: int, x: int, y: int, z: int, w: int)
    ensures x * p + y * (b * p) + z * (b * (b * p)) + w * (b * (b * (b * p)))
         == p * (x + b * (y + b * (z + b * w)))
  {
  }

  /** Digits all zero. */
  lemma {:induction false} EvalZero(s: seq<int>, b: int, n: nat)
    requires n <= |s| && forall k :: 0 <= k < n ==> s[k] == 0
    ensures Eval(s, b, n) == 0
  {
    if n != 0 {
      EvalZero(s, b, n - 1);
    }
  }

  /** Digits below the base denote a value below the base's power. */
  lemma {:induction false} EvalBounds(s: seq<int>, b: int, n: nat)
    requires b > 1 && Range(s, n, 0, b - 1)
    ensures 0 <= Eval(s, b, n) < Pow(b, n)
  {
    if n != 0 {
      EvalBounds(s, b, n - 1);
      var w := Pow(b, n - 1);
      PowPositive(b, n - 1);
      MulMono(0, s[n - 1], w);
      MulMono(s[n - 1], b - 1, w);
      assert (b - 1) * w == b * w - w;
    }
  }

  lemma TopDigit(x: int, e: int, y: int, f: int, w: int)
    requires 0 <= e < w && 0 <= f < w
    requires e + x * w == f + y * w
    ensures x == y && e == f
  {
    assert (x + 1) * w == x * w + w && (y + 1) * w == y * w + w;
    MulMono(x + 1, y, w);
    MulMono(y + 1, x, w);
  }

  /** Normalised digits are determined by their value. */
  lemma {:induction false} EvalInjective(s: seq<int>, t: seq<int>, b: int, n: nat)
    requires b > 1 && Range(s, n, 0, b - 1) && Range(t, n, 0, b - 1)
    requires Eval(s, b, n) == Eval(t, b, n)
    ensures s[..n] == t[..n]
  {
    if n != 0 {
      var w := Pow(b, n - 1);
      EvalBounds(s, b, n - 1);
      EvalBounds(t, b, n - 1);
      var x, y := s[n - 1], t[n - 1];
      TopDigit(x, Eval(s, b, n - 1), y, Eval(t, b, n - 1), w);
      EvalInjective(s, t, b, n - 1);
      assert s[..n] == s[..n - 1] + [x];
      assert t[..n] == t[..n - 1] + [y];
    }
  }
}
