/** The primes whose roots give the constants of SHA-2. */
module Primes {
  import opened Digits
  import Modular

  const PRIMES0: seq<nat> := [2, 3, 5, 7, 11, 13, 17, 19]
  const PRIMES1: seq<nat> := [23, 29, 31, 37, 41, 43, 47, 53]
  const PRIMES2: seq<nat> := [59, 61, 67, 71, 73, 79, 83, 89]
  const PRIMES3: seq<nat> := [97, 101, 103, 107, 109, 113, 127, 131]
  const PRIMES4: seq<nat> := [137, 139, 149, 151, 157, 163, 167, 173]
  const PRIMES5: seq<nat> := [179, 181, 191, 193, 197, 199, 211, 223]
  const PRIMES6: seq<nat> := [227, 229, 233, 239, 241, 251, 257, 263]
  const PRIMES7: seq<nat> := [269, 271, 277, 281, 283, 293, 307, 311]
  const PRIMES8: seq<nat> := [313, 317, 331, 337, 347, 349, 353, 359]
  const PRIMES9: seq<nat> := [367, 373, 379, 383, 389, 397, 401, 409]

  const PRIMES_FIRST: seq<nat> := PRIMES0 + PRIMES1 + PRIMES2 + PRIMES3 + PRIMES4
  const PRIMES_LAST: seq<nat> := PRIMES5 + PRIMES6 + PRIMES7 + PRIMES8 + PRIMES9
  const PRIMES: seq<nat> := PRIMES_FIRST + PRIMES_LAST

  // -------------------------------------------------------------------- primes

  ghost predicate IsPrime(n: nat)
  {
    2 <= n && forall d :: 2 <= d < n ==> n % d != 0
  }

  /** q is the first prime past p. */
  ghost predicate IsNextPrime(p: nat, q: nat)
  {
    p < q && IsPrime(q) && forall n: nat :: p < n < q ==> !IsPrime(n)
  }

  /** No prime below 20 divides n, but n itself. */
  predicate Passes(n: nat)
  {
    && (n % 2 != 0 || n == 2) && (n % 3 != 0 || n == 3) && (n % 5 != 0 || n == 5) && (n % 7 != 0 || n == 7)
    && (n % 11 != 0 || n == 11) && (n % 13 != 0 || n == 13) && (n % 17 != 0 || n == 17) && (n % 19 != 0 || n == 19)
  }

  lemma FactorOfFactor(n: nat, m: nat, q: nat)
    requires m > 0 && q > 0 && n % m == 0 && m % q == 0
    ensures n % q == 0
  {
    var a, b := n / m, m / q;
    assert n == a * m && m == b * q;
    assert a * (b * q) == (a * b) * q;
    Modular.DivUnique(q, n, a * b, 0);
  }

  lemma SmallDivisor(n: nat, m: nat)
    requires 2 <= m <= 20 && m < n && n % m == 0
    ensures !Passes(n)
  {
    var q := if m % 2 == 0 then 2 else if m % 3 == 0 then 3 else if m % 5 == 0 then 5 else m;
    assert m % q == 0 && q in {2, 3, 5, 7, 11, 13, 17, 19};
    FactorOfFactor(n, m, q);
  }

  /** Below 21 squared, the primes below 20 decide. */
  lemma PassesIff(n: nat)
    requires 2 <= n < 441
    ensures IsPrime(n) <==> Passes(n)
  {
    if Passes(n) {
      forall d | 2 <= d < n
        ensures n % d != 0
      {
        if n % d == 0 {
          var e := n / d;
          assert n == e * d;
          Cofactor(n, d, e);
          if d <= 20 {
            SmallDivisor(n, d);
          } else {
            SmallDivisor(n, e);
          }
        }
      }
    }
  }

  lemma Cofactor(n: nat, d: nat, e: nat)
    requires n == e * d && 2 <= d < n < 441
    ensures 2 <= e < n && n % e == 0 && (d <= 20 || e <= 20)
  {
    MulMono(e, 1, d);
    if d > 20 {
      MulMono(21, e, d);
      MulMono(21, d, 21);
    }
    assert e * d == d * e;
    MulMono(2, d, e);
    Modular.DivUnique(e, n, d, 0);
  }

  /** The same, decided by small divisions. */
  predicate NonePasses(a: nat, b: nat)
    decreases b - a
  {
    a >= b || (!Passes(a) && NonePasses(a + 1, b))
  }

  predicate Follows(p: nat, q: nat)
  {
    2 <= p < q < 441 && Passes(q) && NonePasses(p + 1, q)
  }

  lemma {:induction false} NonePassesAt(a: nat, b: nat, n: nat)
    requires NonePasses(a, b) && a <= n < b
    ensures !Passes(n)
    decreases b - a
  {
    if a < n {
      NonePassesAt(a + 1, b, n);
    }
  }

  lemma FollowsIs(p: nat, q: nat)
    requires Follows(p, q)
    ensures IsNextPrime(p, q)
  {
    PassesIff(q);
    forall n: nat | p < n < q
      ensures !IsPrime(n)
    {
      NonePassesAt(p + 1, q, n);
      PassesIff(n);
    }
  }

  lemma Row0()
    ensures forall i :: 0 <= i < 7 ==> Follows(PRIMES0[i], PRIMES0[i + 1])
    ensures Follows(PRIMES0[7], PRIMES1[0])
  {
    assert Follows(2, 3);
    assert Follows(3, 5);
    assert Follows(5, 7);
    assert Follows(7, 11);
    assert Follows(11, 13);
    assert Follows(13, 17);
    assert Follows(17, 19);
    assert Follows(19, 23);
  }

  lemma Row1()
    ensures forall i :: 0 <= i < 7 ==> Follows(PRIMES1[i], PRIMES1[i + 1])
    ensures Follows(PRIMES1[7], PRIMES2[0])
  {
    assert Follows(23, 29);
    assert Follows(29, 31);
    assert Follows(31, 37);
    assert Follows(37, 41);
    assert Follows(41, 43);
    assert Follows(43, 47);
    assert Follows(47, 53);
    assert Follows(53, 59);
  }

  lemma Row2()
    ensures forall i :: 0 <= i < 7 ==> Follows(PRIMES2[i], PRIMES2[i + 1])
    ensures Follows(PRIMES2[7], PRIMES3[0])
  {
    assert Follows(59, 61);
    assert Follows(61, 67);
    assert Follows(67, 71);
    assert Follows(71, 73);
    assert Follows(73, 79);
    assert Follows(79, 83);
    assert Follows(83, 89);
    assert Follows(89, 97);
  }

  lemma Row3()
    ensures forall i :: 0 <= i < 7 ==> Follows(PRIMES3[i], PRIMES3[i + 1])
    ensures Follows(PRIMES3[7], PRIMES4[0])
  {
    assert Follows(97, 101);
    assert Follows(101, 103);
    assert Follows(103, 107);
    assert Follows(107, 109);
    assert Follows(109, 113);
    assert Follows(113, 127);
    assert Follows(127, 131);
    assert Follows(131, 137);
  }

  lemma Row4()
    ensures forall i :: 0 <= i < 7 ==> Follows(PRIMES4[i], PRIMES4[i + 1])
    ensures Follows(PRIMES4[7], PRIMES5[0])
  {
    assert Follows(137, 139);
    assert Follows(139, 149);
    assert Follows(149, 151);
    assert Follows(151, 157);
    assert Follows(157, 163);
    assert Follows(163, 167);
    assert Follows(167, 173);
    assert Follows(173, 179);
  }

  lemma Row5()
    ensures forall i :: 0 <= i < 7 ==> Follows(PRIMES5[i], PRIMES5[i + 1])
    ensures Follows(PRIMES5[7], PRIMES6[0])
  {
    assert Follows(179, 181);
    assert Follows(181, 191);
    assert Follows(191, 193);
    assert Follows(193, 197);
    assert Follows(197, 199);
    assert Follows(199, 211);
    assert Follows(211, 223);
    assert Follows(223, 227);
  }

  lemma Row6()
    ensures forall i :: 0 <= i < 7 ==> Follows(PRIMES6[i], PRIMES6[i + 1])
    ensures Follows(PRIMES6[7], PRIMES7[0])
  {
    assert Follows(227, 229);
    assert Follows(229, 233);
    assert Follows(233, 239);
    assert Follows(239, 241);
    assert Follows(241, 251);
    assert Follows(251, 257);
    assert Follows(257, 263);
    assert Follows(263, 269);
  }

  lemma Row7()
    ensures forall i :: 0 <= i < 7 ==> Follows(PRIMES7[i], PRIMES7[i + 1])
    ensures Follows(PRIMES7[7], PRIMES8[0])
  {
    assert Follows(269, 271);
    assert Follows(271, 277);
    assert Follows(277, 281);
    assert Follows(281, 283);
    assert Follows(283, 293);
    assert Follows(293, 307);
    assert Follows(307, 311);
    assert Follows(311, 313);
  }

  lemma Row8()
    ensures forall i :: 0 <= i < 7 ==> Follows(PRIMES8[i], PRIMES8[i + 1])
    ensures Follows(PRIMES8[7], PRIMES9[0])
  {
    assert Follows(313, 317);
    assert Follows(317, 331);
    assert Follows(331, 337);
    assert Follows(337, 347);
    assert Follows(347, 349);
    assert Follows(349, 353);
    assert Follows(353, 359);
    assert Follows(359, 367);
  }

  lemma Row9()
    ensures forall i :: 0 <= i < 7 ==> Follows(PRIMES9[i], PRIMES9[i + 1])
  {
    assert Follows(367, 373);
    assert Follows(373, 379);
    assert Follows(379, 383);
    assert Follows(383, 389);
    assert Follows(389, 397);
    assert Follows(397, 401);
    assert Follows(401, 409);
  }

  /** One row of the table. */
  function RowOf(r: nat): seq<nat>
  {
    if r == 0 then PRIMES0 else if r == 1 then PRIMES1 else if r == 2 then PRIMES2 else if r == 3 then PRIMES3
    else if r == 4 then PRIMES4 else if r == 5 then PRIMES5 else if r == 6 then PRIMES6 else if r == 7 then PRIMES7
    else if r == 8 then PRIMES8 else PRIMES9
  }

  lemma TableAt(i: nat)
    requires i < 80
    ensures |PRIMES| == 80 && |RowOf(i / 8)| == 8 && PRIMES[i] == RowOf(i / 8)[i % 8]
  {
    if i < 40 {
      FirstHalf(i);
      assert PRIMES[i] == PRIMES_FIRST[i];
    } else {
      SecondHalf(i);
      assert PRIMES[i] == PRIMES_LAST[i - 40];
    }
  }

  lemma FirstHalf(i: nat)
    requires i < 40
    ensures |PRIMES_FIRST| == 40 && |RowOf(i / 8)| == 8 && PRIMES_FIRST[i] == RowOf(i / 8)[i % 8]
  {
  }

  lemma SecondHalf(i: nat)
    requires 40 <= i < 80
    ensures |PRIMES_LAST| == 40 && |RowOf(i / 8)| == 8 && PRIMES_LAST[i - 40] == RowOf(i / 8)[i % 8]
  {
  }

  lemma RowsFollow(i: nat)
    requires i < 79
    ensures |RowOf(i / 8)| == |RowOf((i + 1) / 8)| == 8
    ensures Follows(RowOf(i / 8)[i % 8], RowOf((i + 1) / 8)[(i + 1) % 8])
  {
    Row0();
    Row1();
    Row2();
    Row3();
    Row4();
    Row5();
    Row6();
    Row7();
    Row8();
    Row9();
  }

  /** The table holds the first eighty primes, in order. */
  lemma FirstPrimes(i: nat)
    requires i < 79
    ensures |PRIMES| == 80 && PRIMES[0] == 2 && IsPrime(2)
    ensures IsNextPrime(PRIMES[i], PRIMES[i + 1])
  {
    PassesIff(2);
    TableAt(0);
    TableAt(i);
    TableAt(i + 1);
    RowsFollow(i);
    FollowsIs(PRIMES[i], PRIMES[i + 1]);
  }

  // --------------------------------------------------------------------- roots

  /** Whole parts of the roots of the numbers below 512. */
  function CubeFloor(p: nat): nat
  {
    if p < 8 then 1 else if p < 27 then 2 else if p < 64 then 3 else if p < 125 then 4
    else if p < 216 then 5 else if p < 343 then 6 else 7
  }

  function SquareFloor(p: nat): nat
  {
    if p < 4 then 1 else if p < 9 then 2 else if p < 16 then 3 else 4
  }

  /** k is the first digits, in the given unit, of the fraction of the cube root of p. */
  predicate IsCubeFraction(p: nat, k: nat, unit: nat)
  {
    var x := CubeFloor(p) * unit + k;
    k < unit && x * x * x <= p * (unit * unit * unit) < (x + 1) * (x + 1) * (x + 1)
  }

  predicate IsSquareFraction(p: nat, k: nat, unit: nat)
  {
    var x := SquareFloor(p) * unit + k;
    k < unit && x * x <= p * (unit * unit) < (x + 1) * (x + 1)
  }
}
