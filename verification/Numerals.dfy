/** Numerals in any base, most significant digit first. */
module Numerals {
  import opened Digits
  import opened Modular

  ghost predicate Below(s: seq<int>, base: int)
  {
    forall k :: 0 <= k < |s| ==> 0 <= s[k] < base
  }

  function Big(s: seq<int>, base: int): int
  {
    if s == [] then 0 else Big(s[..|s| - 1], base) * base + s[|s| - 1]
  }

  /** The n low digits of x. */
  function Numeral(x: int, base: int, n: nat): (s: seq<int>)
    requires base > 0
    ensures |s| == n && forall k :: 0 <= k < n ==> 0 <= s[k] < base
    decreases n, x
  {
    if n == 0 then [] else Numeral(x / base, base, n - 1) + [x % base]
  }

  lemma BigSnoc(s: seq<int>, d: int, base: int)
    ensures Big(s + [d], base) == Big(s, base) * base + d
  {
    assert (s + [d])[..|s|] == s;
  }

  lemma {:induction false} BigAppend(s: seq<int>, t: seq<int>, base: int)
    ensures Big(s + t, base) == Big(s, base) * Pow(base, |t|) + Big(t, base)
    decreases |t|
  {
    if t == [] {
      assert s + t == s;
    } else {
      var u, d := t[..|t| - 1], t[|t| - 1];
      BigAppend(s, u, base);
      assert s + t == (s + u) + [d];
      BigSnoc(s + u, d, base);
      Shift(Big(s, base), Pow(base, |u|), Big(u, base), base);
    }
  }

  lemma Shift(x: int, w: int, y: int, base: int)
    ensures (x * w + y) * base == x * (base * w) + y * base
  {
    assert x * w * base == x * (base * w);
  }

  lemma Append(x: int, w: int, base: int, d: int)
    requires 0 <= x < w && 0 <= d < base
    ensures 0 <= x * base + d < base * w
  {
    MulMono(x + 1, w, base);
    MulMono(0, x, base);
    assert (x + 1) * base == x * base + base;
  }

  lemma {:induction false} BigBounds(s: seq<int>, base: int)
    requires base > 0 && Below(s, base)
    ensures 0 <= Big(s, base) < Pow(base, |s|)
    decreases |s|
  {
    if s != [] {
      var u := s[..|s| - 1];
      BigBounds(u, base);
      Append(Big(u, base), Pow(base, |u|), base, s[|s| - 1]);
    }
  }

  /** A numeral is determined by its value and its length. */
  lemma {:induction false} NumeralOfBig(s: seq<int>, base: int)
    requires base > 0 && Below(s, base)
    ensures Numeral(Big(s, base), base, |s|) == s
    decreases |s|
  {
    if s != [] {
      var u, d := s[..|s| - 1], s[|s| - 1];
      NumeralOfBig(u, base);
      DivUnique(base, Big(s, base), Big(u, base), d);
    }
  }

  /** A value that fits is the value of its numeral. */
  lemma {:induction false} BigOfNumeral(x: int, base: int, n: nat)
    requires base > 0 && 0 <= x < Pow(base, n)
    ensures Big(Numeral(x, base, n), base) == x
    decreases n
  {
    if n != 0 {
      var q, r := x / base, x % base;
      FirstDigits(x, base, Pow(base, n - 1));
      BigOfNumeral(q, base, n - 1);
      BigSnoc(Numeral(q, base, n - 1), r, base);
    }
  }

  lemma FirstDigits(x: int, base: int, w: int)
    requires base > 0 && 0 <= x < base * w
    ensures 0 <= x / base < w && (x / base) * base + x % base == x
  {
    MulMono(w, x / base, base);
    MulMono(x / base, -1, base);
  }

  /** Digits of k digits each, in the base's k-th power. */
  lemma {:induction false} Regroup(s: seq<int>, groups: seq<int>, base: int, k: nat)
    requires |s| == k * |groups|
    requires forall i :: 0 <= i < |groups| ==> k * i + k <= |s| && groups[i] == Big(s[k * i..k * i + k], base)
    ensures Big(s, base) == Big(groups, Pow(base, k))
    decreases |groups|
  {
    if |groups| == 0 {
      assert s == [];
    } else {
      var n := |groups| - 1;
      assert k * (n + 1) == k * n + k;
      var u, t := s[..k * n], s[k * n..];
      assert s == u + t && t == s[k * n..k * n + k];
      forall i | 0 <= i < n
        ensures k * i + k <= |u| && groups[..n][i] == Big(u[k * i..k * i + k], base)
      {
        Within(k, i, n);
        assert u[k * i..k * i + k] == s[k * i..k * i + k];
      }
      Regroup(u, groups[..n], base, k);
      BigAppend(u, t, base);
    }
  }

  lemma Within(k: nat, i: nat, n: nat)
    requires i < n
    ensures 0 <= k * i <= k * i + k <= k * n
  {
    MulMono(i + 1, n, k);
    assert (i + 1) * k == i * k + k;
  }
}
