/** The two fixed addition chains: inversion and the square-root exponent. */
module FieldPower {
  import opened Words
  import opened Digits
  import opened Modular
  import opened Field

  const INVERSE_EXPONENT: nat := P - 2
  /** 2^252 - 3, that is (P - 5) / 8. */
  const ROOT_EXPONENT: nat := (P - 5) / 8

  /** The exponent reached once iteration a of a square-and-multiply loop is done, when the
      loop starts at iteration `top` and skips the multiplication at iterations s and t. */
  function ChainExponent(top: nat, s: nat, t: nat, a: nat): nat
    requires a <= top + 1
    decreases top + 1 - a
  {
    if a == top + 1 then 1
    else 2 * ChainExponent(top, s, t, a + 1) + if a == s || a == t then 0 else 1
  }

  /** Above every skipped iteration the exponent is all ones in binary. */
  lemma {:induction false} ChainOfOnes(top: nat, s: nat, t: nat, a: nat)
    requires a <= top + 1 && s < a && t < a
    ensures ChainExponent(top, s, t, a) == Pow(2, top + 2 - a) - 1
    decreases top + 1 - a
  {
    if a <= top {
      ChainOfOnes(top, s, t, a + 1);
    } else {
      assert Pow(2, 1) == 2;
    }
  }

  lemma TwoTo250()
    ensures Pow(2, 250) * 32 == P + 19
  {
    assert Pow(2, 5) == 32;
    PowTo250(2, 32);
  }

  lemma PowTo250(b: int, q: int)
    requires q == Pow(b, 5)
    ensures var r := q * q; var u := r * r; var v := u * u;
      var w := v * r; var x := w * w; var y := x * x;
      Pow(b, 250) == y * w
  {
    PowAdd(b, 5, 5);
    PowAdd(b, 10, 10);
    PowAdd(b, 20, 20);
    PowAdd(b, 40, 10);
    PowAdd(b, 50, 50);
    PowAdd(b, 100, 100);
    PowAdd(b, 200, 50);
  }

  /** Skipping the multiplications at 2 and 4 spells P - 2. */
  lemma InverseChain()
    ensures ChainExponent(253, 2, 4, 0) == INVERSE_EXPONENT
  {
    ChainOfOnes(253, 2, 4, 5);
    TwoTo250();
    var e := ChainExponent(253, 2, 4, 5);
    assert ChainExponent(253, 2, 4, 4) == 2 * e;
    assert ChainExponent(253, 2, 4, 3) == 4 * e + 1;
    assert ChainExponent(253, 2, 4, 2) == 8 * e + 2;
    assert ChainExponent(253, 2, 4, 1) == 16 * e + 5;
  }

  /** Skipping the multiplication at 1 spells 2^252 - 3. */
  lemma RootChain()
    ensures ChainExponent(250, 1, 1, 0) == ROOT_EXPONENT
  {
    ChainOfOnes(250, 1, 1, 2);
    TwoTo250();
    var e := ChainExponent(250, 1, 1, 2);
    assert ChainExponent(250, 1, 1, 1) == 2 * e;
  }

  /** Squaring doubles the exponent. */
  lemma SquareStep(y: int, c: int, x: int, e: nat)
    requires Equal(y, c * c) && Equal(c, Pow(x, e))
    ensures Equal(y, Pow(x, 2 * e))
  {
    CongMul(P, c, Pow(x, e), c, Pow(x, e));
    PowAdd(x, e, e);
    CongTrans(P, y, c * c, Pow(x, 2 * e));
  }

  /** Multiplying adds one. */
  lemma MultiplyStep(y: int, c: int, x: int, e: nat)
    requires Equal(y, c * x) && Equal(c, Pow(x, e))
    ensures Equal(y, Pow(x, e + 1))
  {
    CongMul(P, c, Pow(x, e), x, x);
    CongTrans(P, y, c * x, Pow(x, e) * x);
  }

  method Inv25519(o: array<i64>, i: array<i64>)
    requires IsGf(o) && IsGf(i) && Within(i, FACTOR_LIMIT)
    modifies o
    ensures Equal(V(o), Pow(old(V(i)), INVERSE_EXPONENT))
    ensures Tight(o[..])
  {
    ghost var x := V(i);
    var c := new i64[16](_ => 0);
    Set25519(c, i);
    assert Pow(x, 1) == x;
    for a := 254 downto 0
      modifies c
      invariant Within(c, FACTOR_LIMIT) && (a < 254 ==> Tight(c[..]))
      invariant Equal(V(c), Pow(x, ChainExponent(253, 2, 4, a)))
    {
      ghost var v, e := V(c), ChainExponent(253, 2, 4, a + 1);
      S(c, c);
      SquareStep(V(c), v, x, e);
      if a != 2 && a != 4 {
        ghost var w := V(c);
        M(c, c, i);
        MultiplyStep(V(c), w, x, 2 * e);
      }
    }
    InverseChain();
    Set25519(o, c);
  }

  method Pow2523(o: array<i64>, i: array<i64>)
    requires IsGf(o) && IsGf(i) && Within(i, FACTOR_LIMIT)
    modifies o
    ensures Equal(V(o), Pow(old(V(i)), ROOT_EXPONENT))
    ensures Tight(o[..])
  {
    ghost var x := V(i);
    var c := new i64[16](_ => 0);
    Set25519(c, i);
    assert Pow(x, 1) == x;
    for a := 251 downto 0
      modifies c
      invariant Within(c, FACTOR_LIMIT) && (a < 251 ==> Tight(c[..]))
      invariant Equal(V(c), Pow(x, ChainExponent(250, 1, 1, a)))
    {
      ghost var v, e := V(c), ChainExponent(250, 1, 1, a + 1);
      S(c, c);
      SquareStep(V(c), v, x, e);
      if a != 1 {
        ghost var w := V(c);
        M(c, c, i);
        MultiplyStep(V(c), w, x, 2 * e);
      }
    }
    RootChain();
    Set25519(o, c);
  }
}
