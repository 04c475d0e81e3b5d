/** Congruence arithmetic, for any positive modulus. */
module Modular {
  import opened Digits

  /** An unspecified number of folds around the definition of congruence. */
  ghost function Folds(): (n: nat)
    ensures n > 0
  {
    var n: nat :| n > 0; n
  }

  ghost predicate Folded(n: nat, m: int, a: int, b: int)
    requires m > 0
  {
    if n == 0 then (a - b) % m == 0 else Folded(n - 1, m, a, b)
  }

  /** a and b differ by a multiple of m. The definition is kept folded, so that proofs about
      congruences go through the laws below and not through division. */
  ghost predicate Cong(m: int, a: int, b: int)
    requires m > 0
    ensures a == b ==> Cong(m, a, b)
  {
    Unfold(Folds(), m, a, b);
    Folded(Folds(), m, a, b)
  }

  lemma {:induction false} Unfold(n: nat, m: int, a: int, b: int)
    requires m > 0
    ensures Folded(n, m, a, b) <==> (a - b) % m == 0
  {
    if n != 0 {
      Unfold(n - 1, m, a, b);
    }
  }

  lemma CongDefinition(m: int, a: int, b: int)
    requires m > 0
    ensures Cong(m, a, b) <==> (a - b) % m == 0
  {
    Unfold(Folds(), m, a, b);
  }

  /** A constant whose value proofs see only when they ask for it. */
  ghost function Sealed(x: int): int
  {
    SealedBy(Folds(), x)
  }

  ghost function SealedBy(n: nat, x: int): int
  {
    if n == 0 then x else SealedBy(n - 1, x)
  }

  lemma {:induction false} Unseal(n: nat, x: int)
    ensures SealedBy(n, x) == x
  {
    if n != 0 {
      Unseal(n - 1, x);
    }
  }

  lemma SealedValue(x: int)
    ensures Sealed(x) == x
  {
    Unseal(Folds(), x);
  }

  /** The quotient and remainder are determined by their defining equation. */
  lemma DivUnique(m: int, x: int, q: int, r: int)
    requires m > 0 && x == q * m + r && 0 <= r < m
    ensures x / m == q && x % m == r
  {
    var d := x / m - q;
    assert x == m * (x / m) + x % m;
    assert d * m == r - x % m;
    MulMono(1, d, m);
    MulMono(d, -1, m);
  }

  lemma CongIntro(m: int, a: int, b: int, k: int)
    requires m > 0 && a - b == k * m
    ensures Cong(m, a, b)
  {
    CongDefinition(m, a, b);
    DivUnique(m, a - b, k, 0);
  }

  lemma CongElim(m: int, a: int, b: int) returns (k: int)
    requires m > 0 && Cong(m, a, b)
    ensures a - b == k * m
  {
    CongDefinition(m, a, b);
    k := (a - b) / m;
  }

  lemma CongMod(m: int, a: int)
    requires m > 0
    ensures Cong(m, a, a % m)
  {
    CongIntro(m, a, a % m, a / m);
  }

  lemma CongIsSameMod(m: int, a: int, b: int)
    requires m > 0
    ensures Cong(m, a, b) <==> a % m == b % m
  {
    if Cong(m, a, b) {
      var k := CongElim(m, a, b);
      var q, r := b / m, b % m;
      assert a == (q + k) * m + r;
      DivUnique(m, a, q + k, r);
    }
    if a % m == b % m {
      var q, p := a / m, b / m;
      assert a - b == (q - p) * m;
      CongIntro(m, a, b, q - p);
    }
  }

  lemma CongSym(m: int, a: int, b: int)
    requires m > 0 && Cong(m, a, b)
    ensures Cong(m, b, a)
  {
    CongIsSameMod(m, a, b);
    CongIsSameMod(m, b, a);
  }

  lemma CongTrans(m: int, a: int, b: int, c: int)
    requires m > 0 && Cong(m, a, b) && Cong(m, b, c)
    ensures Cong(m, a, c)
  {
    CongIsSameMod(m, a, b);
    CongIsSameMod(m, b, c);
    CongIsSameMod(m, a, c);
  }

  lemma CongAdd(m: int, a: int, b: int, c: int, d: int)
    requires m > 0 && Cong(m, a, b) && Cong(m, c, d)
    ensures Cong(m, a + c, b + d)
  {
    var k := CongElim(m, a, b);
    var l := CongElim(m, c, d);
    assert (a + c) - (b + d) == (k + l) * m;
    CongIntro(m, a + c, b + d, k + l);
  }

  lemma CongSub(m: int, a: int, b: int, c: int, d: int)
    requires m > 0 && Cong(m, a, b) && Cong(m, c, d)
    ensures Cong(m, a - c, b - d)
  {
    var k := CongElim(m, a, b);
    var l := CongElim(m, c, d);
    assert (a - c) - (b - d) == (k - l) * m;
    CongIntro(m, a - c, b - d, k - l);
  }

  lemma CongMul(m: int, a: int, b: int, c: int, d: int)
    requires m > 0 && Cong(m, a, b) && Cong(m, c, d)
    ensures Cong(m, a * c, b * d)
  {
    var k := CongElim(m, a, b);
    var l := CongElim(m, c, d);
    calc {
      a * c - b * d;
      (b + k * m) * c - b * d;
      b * (c - d) + (k * m) * c;
      b * (l * m) + (k * m) * c;
      (b * l + k * c) * m;
    }
    CongIntro(m, a * c, b * d, b * l + k * c);
  }

  lemma NegMod(m: int, v: int)
    requires m > 0
    ensures (-v) % m == (-(v % m)) % m
  {
    CongMod(m, v);
    CongSub(m, 0, 0, v, v % m);
    CongIsSameMod(m, 0 - v, 0 - v % m);
  }

  lemma AddMod(m: int, a: int, b: int)
    requires m > 0
    ensures (a % m + b) % m == (a + b) % m
    ensures (a % m + b % m) % m == (a + b) % m
  {
    CongMod(m, a);
    CongMod(m, b);
    CongAdd(m, a, a % m, b, b);
    CongAdd(m, a, a % m, b, b % m);
    CongIsSameMod(m, a + b, a % m + b);
    CongIsSameMod(m, a + b, a % m + b % m);
  }

  lemma SmallMod(x: nat, m: nat)
    requires m > 0
    ensures x < m ==> x % m == x
  {
    if x < m {
      DivUnique(m, x, 0, x);
    }
  }
}
