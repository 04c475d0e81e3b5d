/** Little-endian byte strings as numbers, and back. */
module LittleEndian {
  import opened Words
  import opened Digits
  import opened Modular

  function Le(s: seq<u8>): int
  {
    Eval(s, 256, |s|)
  }

  /** The n low bytes of x. */
  function Bytes(x: nat, n: nat): (s: seq<u8>)
    ensures |s| == n
    decreases n, x
  {
    if n == 0 then [] else [x % 256] + Bytes(x / 256, n - 1)
  }

  lemma LeFirst(s: seq<u8>)
    requires |s| > 0
    ensures Le(s) == s[0] + 256 * Le(s[1..])
  {
    EvalSplit(s, 256, 1, |s| - 1);
    assert Pow(256, 1) == 256 && Eval(s, 256, 1) == s[0] * Pow(256, 0);
  }

  lemma LeNatural(s: seq<u8>)
    ensures 0 <= Le(s) < Pow(256, |s|)
  {
    EvalBounds(s, 256, |s|);
  }

  /** A byte string is the spelling of its value. */
  lemma {:induction false} BytesOfLe(s: seq<u8>)
    ensures Le(s) >= 0 && Bytes(Le(s), |s|) == s
    decreases |s|
  {
    LeNatural(s);
    if s != [] {
      LeNatural(s[1..]);
      BytesOfLe(s[1..]);
      LeFirst(s);
      DivUnique(256, Le(s), Le(s[1..]), s[0]);
    }
  }

  /** A number that fits is the value of its spelling. */
  lemma {:induction false} LeOfBytes(x: nat, n: nat)
    requires x < Pow(256, n)
    ensures Le(Bytes(x, n)) == x
    decreases n
  {
    if n != 0 {
      var s := Bytes(x, n);
      LeOfBytes(x / 256, n - 1);
      assert s[1..] == Bytes(x / 256, n - 1);
      LeFirst(s);
    }
  }
}
