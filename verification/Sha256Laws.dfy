/** What the functions and tables of SHA-256 are, bit by bit and digit by digit, and the compression
    as the recurrence of section 6.2.2 of FIPS 180-4. */
module Sha256Laws {
  import opened Words
  import opened Digits
  import opened Numerals
  import opened Modular
  import opened Padding
  import opened Primes
  import opened Sha256
  import Bits
  import BitLaws

  // --------------------------------------------------------- logical functions

  lemma XorAt(x: u32, y: u32, i: nat)
    requires i < 32
    ensures Bits.BitOf(Xor(x, y), i) == (Bits.BitOf(x, i) + Bits.BitOf(y, i)) % 2
  {
    BitLaws.XorBit(x, y, 32, i);
  }

  lemma AndAt(x: u32, y: u32, i: nat)
    requires i < 32
    ensures Bits.BitOf(And(x, y), i) == if Bits.BitOf(x, i) == 1 && Bits.BitOf(y, i) == 1 then 1 else 0
  {
    BitLaws.AndBitwise(x, y, 32, i);
  }

  lemma NotAt(x: u32, i: nat)
    requires i < 32
    ensures Bits.BitOf(Not(x), i) == 1 - Bits.BitOf(x, i)
  {
    WordPower();
    BitLaws.BitsTurned(x, 32, i);
  }

  lemma RotrAt(x: u32, n: nat, i: nat)
    requires 0 < n < 32 && i < 32
    ensures Bits.BitOf(Rotr(x, n), i) == Bits.BitOf(x, (i + n) % 32)
  {
    WordPower();
    BitLaws.BitsRotated(x, n, 32, i);
  }

  lemma LsrAt(x: u32, n: nat, i: nat)
    requires i < 32
    ensures Bits.BitOf(Lsr(x, n), i) == if i + n < 32 then Bits.BitOf(x, i + n) else 0
  {
    WordPower();
    BitLaws.BitsDown(x, n, i);
    if i + n >= 32 {
      BitLaws.NoBitsAbove(x, 32, n + i);
    }
  }

  /** Three words, bit by bit. */
  lemma ParityAt(a: u32, b: u32, c: u32, i: nat)
    requires i < 32
    ensures Bits.BitOf(Xor(Xor(a, b), c), i) == (Bits.BitOf(a, i) + Bits.BitOf(b, i) + Bits.BitOf(c, i)) % 2
  {
    XorAt(a, b, i);
    XorAt(Xor(a, b), c, i);
  }

  /** Bit i of the functions of one word: three rotations, or two and a shift. */
  lemma BigSigmaBits(x: u32, y: u32, z: u32, i: nat)
    requires i < 32
    ensures Bits.BitOf(Mix(BIG0, x, y, z), i)
         == (Bits.BitOf(x, (i + 2) % 32) + Bits.BitOf(x, (i + 13) % 32) + Bits.BitOf(x, (i + 22) % 32)) % 2
    ensures Bits.BitOf(Mix(BIG1, x, y, z), i)
         == (Bits.BitOf(x, (i + 6) % 32) + Bits.BitOf(x, (i + 11) % 32) + Bits.BitOf(x, (i + 25) % 32)) % 2
  {
    Big0Is(x, y, z);
    Big1Is(x, y, z);
    RotationsAt(x, 2, 13, 22, i);
    RotationsAt(x, 6, 11, 25, i);
  }

  ghost function Parity(x: u32, a: nat, b: nat, c: nat): u32
    requires 0 < a < 32 && 0 < b < 32 && 0 < c < 32
  {
    ParityBy(Folds(), x, a, b, c)
  }

  ghost function ParityBy(n: nat, x: u32, a: nat, b: nat, c: nat): u32
    requires 0 < a < 32 && 0 < b < 32 && 0 < c < 32
  {
    if n == 0 then Xor(Xor(Rotr(x, a), Rotr(x, b)), Rotr(x, c)) else ParityBy(n - 1, x, a, b, c)
  }

  lemma {:induction false} UnfoldParity(n: nat, x: u32, a: nat, b: nat, c: nat)
    requires 0 < a < 32 && 0 < b < 32 && 0 < c < 32
    ensures ParityBy(n, x, a, b, c) == Xor(Xor(Rotr(x, a), Rotr(x, b)), Rotr(x, c))
  {
    if n != 0 {
      UnfoldParity(n - 1, x, a, b, c);
    }
  }

  lemma Big0Is(x: u32, y: u32, z: u32)
    ensures Mix(BIG0, x, y, z) == Parity(x, 2, 13, 22)
  {
    UnfoldMix(Folds(), BIG0, x, y, z);
    UnfoldParity(Folds(), x, 2, 13, 22);
  }

  lemma Big1Is(x: u32, y: u32, z: u32)
    ensures Mix(BIG1, x, y, z) == Parity(x, 6, 11, 25)
  {
    UnfoldMix(Folds(), BIG1, x, y, z);
    UnfoldParity(Folds(), x, 6, 11, 25);
  }

  lemma SmallSigmaBits(x: u32, y: u32, z: u32, i: nat)
    requires i < 32
    ensures Bits.BitOf(Mix(SMALL0, x, y, z), i)
         == (Bits.BitOf(x, (i + 7) % 32) + Bits.BitOf(x, (i + 18) % 32)
             + (if i + 3 < 32 then Bits.BitOf(x, i + 3) else 0)) % 2
    ensures Bits.BitOf(Mix(SMALL1, x, y, z), i)
         == (Bits.BitOf(x, (i + 17) % 32) + Bits.BitOf(x, (i + 19) % 32)
             + (if i + 10 < 32 then Bits.BitOf(x, i + 10) else 0)) % 2
  {
    UnfoldMix(Folds(), SMALL0, x, y, z);
    UnfoldMix(Folds(), SMALL1, x, y, z);
    ShiftedAt(x, 7, 18, 3, i);
    ShiftedAt(x, 17, 19, 10, i);
  }

  lemma RotationsAt(x: u32, a: nat, b: nat, c: nat, i: nat)
    requires 0 < a < 32 && 0 < b < 32 && 0 < c < 32 && i < 32
    ensures Bits.BitOf(Parity(x, a, b, c), i)
         == (Bits.BitOf(x, (i + a) % 32) + Bits.BitOf(x, (i + b) % 32) + Bits.BitOf(x, (i + c) % 32)) % 2
  {
    UnfoldParity(Folds(), x, a, b, c);
    ParityAt(Rotr(x, a), Rotr(x, b), Rotr(x, c), i);
    RotrAt(x, a, i);
    RotrAt(x, b, i);
    RotrAt(x, c, i);
  }

  lemma ShiftedAt(x: u32, a: nat, b: nat, c: nat, i: nat)
    requires 0 < a < 32 && 0 < b < 32 && i < 32
    ensures Bits.BitOf(Xor(Xor(Rotr(x, a), Rotr(x, b)), Lsr(x, c)), i)
         == (Bits.BitOf(x, (i + a) % 32) + Bits.BitOf(x, (i + b) % 32)
             + (if i + c < 32 then Bits.BitOf(x, i + c) else 0)) % 2
  {
    ParityAt(Rotr(x, a), Rotr(x, b), Lsr(x, c), i);
    RotrAt(x, a, i);
    RotrAt(x, b, i);
    LsrAt(x, c, i);
  }

  /** Bit i of the choice and of the majority. */
  lemma ChoiceBits(x: u32, y: u32, z: u32, i: nat)
    requires i < 32
    ensures Bits.BitOf(Mix(CH, x, y, z), i) == if Bits.BitOf(x, i) == 1 then Bits.BitOf(y, i) else Bits.BitOf(z, i)
    ensures Bits.BitOf(Mix(MAJ, x, y, z), i) == if Bits.BitOf(x, i) + Bits.BitOf(y, i) + Bits.BitOf(z, i) >= 2 then 1 else 0
  {
    UnfoldMix(Folds(), CH, x, y, z);
    UnfoldMix(Folds(), MAJ, x, y, z);
    XorAt(And(x, y), And(Not(x), z), i);
    AndAt(x, y, i);
    AndAt(Not(x), z, i);
    NotAt(x, i);
    ParityAt(And(x, y), And(x, z), And(y, z), i);
    AndAt(x, z, i);
    AndAt(y, z, i);
  }

  // -------------------------------------------------------------------- tables

  lemma RowRoots0()
    ensures forall i :: 0 <= i < 8 ==> IsCubeFraction(PRIMES0[i], K0[i], TWO_32)
  {
    assert IsCubeFraction(PRIMES0[0], K0[0], TWO_32);
    assert IsCubeFraction(PRIMES0[1], K0[1], TWO_32);
    assert IsCubeFraction(PRIMES0[2], K0[2], TWO_32);
    assert IsCubeFraction(PRIMES0[3], K0[3], TWO_32);
    assert IsCubeFraction(PRIMES0[4], K0[4], TWO_32);
    assert IsCubeFraction(PRIMES0[5], K0[5], TWO_32);
    assert IsCubeFraction(PRIMES0[6], K0[6], TWO_32);
    assert IsCubeFraction(PRIMES0[7], K0[7], TWO_32);
  }

  lemma RowRoots1()
    ensures forall i :: 0 <= i < 8 ==> IsCubeFraction(PRIMES1[i], K1[i], TWO_32)
  {
    assert IsCubeFraction(PRIMES1[0], K1[0], TWO_32);
    assert IsCubeFraction(PRIMES1[1], K1[1], TWO_32);
    assert IsCubeFraction(PRIMES1[2], K1[2], TWO_32);
    assert IsCubeFraction(PRIMES1[3], K1[3], TWO_32);
    assert IsCubeFraction(PRIMES1[4], K1[4], TWO_32);
    assert IsCubeFraction(PRIMES1[5], K1[5], TWO_32);
    assert IsCubeFraction(PRIMES1[6], K1[6], TWO_32);
    assert IsCubeFraction(PRIMES1[7], K1[7], TWO_32);
  }

  lemma RowRoots2()
    ensures forall i :: 0 <= i < 8 ==> IsCubeFraction(PRIMES2[i], K2[i], TWO_32)
  {
    assert IsCubeFraction(PRIMES2[0], K2[0], TWO_32);
    assert IsCubeFraction(PRIMES2[1], K2[1], TWO_32);
    assert IsCubeFraction(PRIMES2[2], K2[2], TWO_32);
    assert IsCubeFraction(PRIMES2[3], K2[3], TWO_32);
    assert IsCubeFraction(PRIMES2[4], K2[4], TWO_32);
    assert IsCubeFraction(PRIMES2[5], K2[5], TWO_32);
    assert IsCubeFraction(PRIMES2[6], K2[6], TWO_32);
    assert IsCubeFraction(PRIMES2[7], K2[7], TWO_32);
  }

  lemma RowRoots3()
    ensures forall i :: 0 <= i < 8 ==> IsCubeFraction(PRIMES3[i], K3[i], TWO_32)
  {
    assert IsCubeFraction(PRIMES3[0], K3[0], TWO_32);
    assert IsCubeFraction(PRIMES3[1], K3[1], TWO_32);
    assert IsCubeFraction(PRIMES3[2], K3[2], TWO_32);
    assert IsCubeFraction(PRIMES3[3], K3[3], TWO_32);
    assert IsCubeFraction(PRIMES3[4], K3[4], TWO_32);
    assert IsCubeFraction(PRIMES3[5], K3[5], TWO_32);
    assert IsCubeFraction(PRIMES3[6], K3[6], TWO_32);
    assert IsCubeFraction(PRIMES3[7], K3[7], TWO_32);
  }

  lemma RowRoots4()
    ensures forall i :: 0 <= i < 8 ==> IsCubeFraction(PRIMES4[i], K4[i], TWO_32)
  {
    assert IsCubeFraction(PRIMES4[0], K4[0], TWO_32);
    assert IsCubeFraction(PRIMES4[1], K4[1], TWO_32);
    assert IsCubeFraction(PRIMES4[2], K4[2], TWO_32);
    assert IsCubeFraction(PRIMES4[3], K4[3], TWO_32);
    assert IsCubeFraction(PRIMES4[4], K4[4], TWO_32);
    assert IsCubeFraction(PRIMES4[5], K4[5], TWO_32);
    assert IsCubeFraction(PRIMES4[6], K4[6], TWO_32);
    assert IsCubeFraction(PRIMES4[7], K4[7], TWO_32);
  }

  lemma RowRoots5()
    ensures forall i :: 0 <= i < 8 ==> IsCubeFraction(PRIMES5[i], K5[i], TWO_32)
  {
    assert IsCubeFraction(PRIMES5[0], K5[0], TWO_32);
    assert IsCubeFraction(PRIMES5[1], K5[1], TWO_32);
    assert IsCubeFraction(PRIMES5[2], K5[2], TWO_32);
    assert IsCubeFraction(PRIMES5[3], K5[3], TWO_32);
    assert IsCubeFraction(PRIMES5[4], K5[4], TWO_32);
    assert IsCubeFraction(PRIMES5[5], K5[5], TWO_32);
    assert IsCubeFraction(PRIMES5[6], K5[6], TWO_32);
    assert IsCubeFraction(PRIMES5[7], K5[7], TWO_32);
  }

  lemma RowRoots6()
    ensures forall i :: 0 <= i < 8 ==> IsCubeFraction(PRIMES6[i], K6[i], TWO_32)
  {
    assert IsCubeFraction(PRIMES6[0], K6[0], TWO_32);
    assert IsCubeFraction(PRIMES6[1], K6[1], TWO_32);
    assert IsCubeFraction(PRIMES6[2], K6[2], TWO_32);
    assert IsCubeFraction(PRIMES6[3], K6[3], TWO_32);
    assert IsCubeFraction(PRIMES6[4], K6[4], TWO_32);
    assert IsCubeFraction(PRIMES6[5], K6[5], TWO_32);
    assert IsCubeFraction(PRIMES6[6], K6[6], TWO_32);
    assert IsCubeFraction(PRIMES6[7], K6[7], TWO_32);
  }

  lemma RowRoots7()
    ensures forall i :: 0 <= i < 8 ==> IsCubeFraction(PRIMES7[i], K7[i], TWO_32)
  {
    assert IsCubeFraction(PRIMES7[0], K7[0], TWO_32);
    assert IsCubeFraction(PRIMES7[1], K7[1], TWO_32);
    assert IsCubeFraction(PRIMES7[2], K7[2], TWO_32);
    assert IsCubeFraction(PRIMES7[3], K7[3], TWO_32);
    assert IsCubeFraction(PRIMES7[4], K7[4], TWO_32);
    assert IsCubeFraction(PRIMES7[5], K7[5], TWO_32);
    assert IsCubeFraction(PRIMES7[6], K7[6], TWO_32);
    assert IsCubeFraction(PRIMES7[7], K7[7], TWO_32);
  }

  /** Row r of the round constants. */
  function RowK(r: nat): seq<u32>
  {
    if r == 0 then K0 else if r == 1 then K1 else if r == 2 then K2 else if r == 3 then K3
    else if r == 4 then K4 else if r == 5 then K5 else if r == 6 then K6 else K7
  }

  lemma TableAtK(i: nat)
    requires i < ROUNDS
    ensures |K| == ROUNDS && |RowK(i / 8)| == 8 && K[i] == RowK(i / 8)[i % 8]
  {
    if i < |K_FIRST| {
      FirstHalfK(i);
      assert K[i] == K_FIRST[i];
    } else {
      SecondHalfK(i);
      assert K[i] == K_LAST[i - 32];
    }
  }

  lemma FirstHalfK(i: nat)
    requires i < |K_FIRST|
    ensures |K_FIRST| == 32 && |RowK(i / 8)| == 8 && K_FIRST[i] == RowK(i / 8)[i % 8]
  {
  }

  lemma SecondHalfK(i: nat)
    requires 32 <= i < ROUNDS
    ensures |K_LAST| == 32 && |RowK(i / 8)| == 8 && K_LAST[i - 32] == RowK(i / 8)[i % 8]
  {
  }

  lemma RowsAreRoots(i: nat)
    requires i < ROUNDS
    ensures |RowK(i / 8)| == |RowOf(i / 8)| == 8
    ensures IsCubeFraction(RowOf(i / 8)[i % 8], RowK(i / 8)[i % 8], TWO_32)
  {
    RowRoots0();
    RowRoots1();
    RowRoots2();
    RowRoots3();
    RowRoots4();
    RowRoots5();
    RowRoots6();
    RowRoots7();
  }

  /** The round constants are the first 32 bits of the fractions of the cube roots of the first
      sixty-four primes. */
  lemma ConstantsAreRoots(i: nat)
    requires i < ROUNDS
    ensures |K| == ROUNDS && |PRIMES| == 80
    ensures IsCubeFraction(PRIMES[i], K[i], TWO_32)
  {
    TableAtK(i);
    TableAt(i);
    RowsAreRoots(i);
  }

  lemma LowInitial()
    ensures forall i :: 0 <= i < 4 ==> IsSquareFraction(PRIMES0[i], IV[i], TWO_32)
  {
    assert IsSquareFraction(PRIMES0[0], IV[0], TWO_32);
    assert IsSquareFraction(PRIMES0[1], IV[1], TWO_32);
    assert IsSquareFraction(PRIMES0[2], IV[2], TWO_32);
    assert IsSquareFraction(PRIMES0[3], IV[3], TWO_32);
  }

  lemma HighInitial()
    ensures forall i :: 4 <= i < 8 ==> IsSquareFraction(PRIMES0[i], IV[i], TWO_32)
  {
    assert IsSquareFraction(PRIMES0[4], IV[4], TWO_32);
    assert IsSquareFraction(PRIMES0[5], IV[5], TWO_32);
    assert IsSquareFraction(PRIMES0[6], IV[6], TWO_32);
    assert IsSquareFraction(PRIMES0[7], IV[7], TWO_32);
  }

  /** The initial value is the first 32 bits of the fractions of the square roots of the first
      eight primes. */
  lemma InitialAreRoots(i: nat)
    requires i < 8
    ensures |IV| == 8 && |PRIMES| == 80
    ensures IsSquareFraction(PRIMES[i], IV[i], TWO_32)
  {
    TableAt(i);
    LowInitial();
    HighInitial();
  }

  // --------------------------------------------------------------- compression

  /** Word i of a block is its bytes as a number, most significant first. */
  lemma {:induction false} LoadIsBig(block: seq<u8>, i: nat, n: nat)
    requires 4 * i + n <= |block|
    ensures Load(block, i, n) == Big(block[4 * i..4 * i + n], 256)
    decreases n
  {
    var part := block[4 * i..4 * i + n];
    if n != 0 {
      LoadIsBig(block, i, n - 1);
      assert part[..n - 1] == block[4 * i..4 * i + (n - 1)];
    }
  }

  /** The message schedule: the block's words, then the recurrence. */
  ghost predicate IsSchedule(block: seq<u8>, w: seq<u32>)
    requires |block| == BLOCK
  {
    && |w| == ROUNDS
    && (forall t :: 0 <= t < 16 ==> w[t] == Big(block[4 * t..4 * t + 4], 256))
    && forall t :: 16 <= t < ROUNDS ==> IsExpansion(w, t)
  }

  ghost predicate IsExpansion(w: seq<u32>, t: nat)
    requires 16 <= t < |w|
  {
    w[t] == (Mix(SMALL1, w[t - 2], 0, 0) + w[t - 7] + Mix(SMALL0, w[t - 15], 0, 0) + w[t - 16]) % TWO_32
  }

  lemma {:induction false} ScheduleWord(block: seq<u8>, n: nat, t: nat)
    requires |block| == BLOCK && t < n
    ensures Schedule(block, n)[..t] == Schedule(block, t)
    ensures Schedule(block, n)[t] == if t < 16 then LoadWord(block, t) else Expanded(Schedule(block, t))
    decreases n
  {
    var before := Schedule(block, n - 1);
    if t < n - 1 {
      ScheduleWord(block, n - 1, t);
      assert Schedule(block, n)[..t] == before[..t];
    } else {
      assert Schedule(block, n)[..t] == before;
    }
  }

  lemma ExpansionAt(block: seq<u8>, w: seq<u32>, t: nat)
    requires |block| == BLOCK && 16 <= t < ROUNDS && w == Schedule(block, ROUNDS)
    ensures IsExpansion(w, t)
  {
    ScheduleWord(block, ROUNDS, t);
    var v := Schedule(block, t);
    assert v == w[..t];
  }

  lemma ScheduleIs(block: seq<u8>)
    requires |block| == BLOCK
    ensures IsSchedule(block, Schedule(block, ROUNDS))
  {
    var w := Schedule(block, ROUNDS);
    forall t | 0 <= t < 16
      ensures w[t] == Big(block[4 * t..4 * t + 4], 256)
    {
      ScheduleWord(block, ROUNDS, t);
      LoadIsBig(block, t, 4);
    }
    forall t | 16 <= t < ROUNDS
      ensures IsExpansion(w, t)
    {
      ExpansionAt(block, w, t);
    }
  }

  /** The working variables as two sequences: a[t + 4] and e[t + 4] are the first and the fifth
      variable after round t, and the other six are earlier members. */
  ghost predicate IsTrace(s: seq<u32>, k: seq<u32>, w: seq<u32>, a: seq<u32>, e: seq<u32>, n: nat)
    requires |s| == 8 && n <= |k| && n <= |w|
  {
    && |a| == |e| == n + 4
    && a[0] == s[3] && a[1] == s[2] && a[2] == s[1] && a[3] == s[0]
    && e[0] == s[7] && e[1] == s[6] && e[2] == s[5] && e[3] == s[4]
    && forall t :: 0 <= t < n ==> IsRound(k, w, a, e, t)
  }

  /** T1 of round t: the eighth variable, the two functions of the fifth to seventh, and the words
      of the round. */
  ghost function First(k: seq<u32>, w: seq<u32>, e: seq<u32>, t: nat): int
    requires t < |k| && t < |w| && t + 3 < |e|
  {
    e[t] + Mix(BIG1, e[t + 3], 0, 0) + Mix(CH, e[t + 3], e[t + 2], e[t + 1]) + k[t] + w[t]
  }

  ghost predicate IsRound(k: seq<u32>, w: seq<u32>, a: seq<u32>, e: seq<u32>, t: nat)
    requires t < |k| && t < |w| && t + 4 < |a| && t + 4 < |e|
  {
    && e[t + 4] == (a[t] + First(k, w, e, t)) % TWO_32
    && a[t + 4] == (First(k, w, e, t) + Mix(BIG0, a[t + 3], 0, 0)
                    + Mix(MAJ, a[t + 3], a[t + 2], a[t + 1])) % TWO_32
  }

  /** The variables after n rounds, from the two sequences. */
  function VarsAt(a: seq<u32>, e: seq<u32>, n: nat): Vars
    requires n + 4 <= |a| && n + 4 <= |e|
  {
    Vars(a[n + 3], a[n + 2], a[n + 1], a[n], e[n + 3], e[n + 2], e[n + 1], e[n])
  }

  lemma RoundIs(v: Vars, k: u32, w: u32)
    ensures var t1 := v.h + Mix(BIG1, v.e, 0, 0) + Mix(CH, v.e, v.f, v.g) + k + w;
      var r := Round(v, k, w);
      && r.a == (t1 + Mix(BIG0, v.a, 0, 0) + Mix(MAJ, v.a, v.b, v.c)) % TWO_32
      && r.e == (v.d + t1) % TWO_32
      && r.b == v.a && r.c == v.b && r.d == v.c && r.f == v.e && r.g == v.f && r.h == v.g
  {
    var t1 := v.h + Mix(BIG1, v.e, 0, 0) + Mix(CH, v.e, v.f, v.g) + k + w;
    var t2 := Mix(BIG0, v.a, 0, 0) + Mix(MAJ, v.a, v.b, v.c);
    AddMod(TWO_32, t1, t2);
    AddMod(TWO_32, t1, v.d);
  }

  /** The rounds have a trace, and end where it ends. */
  lemma {:induction false} TraceOf(s: seq<u32>, k: seq<u32>, w: seq<u32>, n: nat) returns (a: seq<u32>, e: seq<u32>)
    requires |s| == 8 && n <= |k| && n <= |w|
    ensures IsTrace(s, k, w, a, e, n) && Rounds(FromState(s), k, w, n) == VarsAt(a, e, n)
    decreases n
  {
    if n == 0 {
      a, e := [s[3], s[2], s[1], s[0]], [s[7], s[6], s[5], s[4]];
    } else {
      a, e := TraceOf(s, k, w, n - 1);
      a, e := NextRound(s, k, w, n - 1, a, e);
    }
  }

  lemma NextRound(s: seq<u32>, k: seq<u32>, w: seq<u32>, n: nat, b: seq<u32>, f: seq<u32>)
      returns (a: seq<u32>, e: seq<u32>)
    requires |s| == 8 && n < |k| && n < |w| && IsTrace(s, k, w, b, f, n)
    ensures IsTrace(s, k, w, a, e, n + 1) && VarsAt(a, e, n + 1) == Round(VarsAt(b, f, n), k[n], w[n])
  {
    var v := Round(VarsAt(b, f, n), k[n], w[n]);
    RoundIs(VarsAt(b, f, n), k[n], w[n]);
    a, e := b + [v.a], f + [v.e];
    TraceGrows(s, k, w, b, f, n, v.a, v.e);
  }

  lemma TraceGrows(s: seq<u32>, k: seq<u32>, w: seq<u32>, b: seq<u32>, f: seq<u32>, n: nat, x: u32, y: u32)
    requires |s| == 8 && n < |k| && n < |w| && IsTrace(s, k, w, b, f, n)
    requires IsRound(k, w, b + [x], f + [y], n)
    ensures IsTrace(s, k, w, b + [x], f + [y], n + 1)
  {
    forall t | 0 <= t < n
      ensures IsRound(k, w, b + [x], f + [y], t)
    {
      assert IsRound(k, w, b, f, t);
    }
  }

  /** Compression: the trace over the schedule, its last variables added to the chaining value. */
  lemma CompressionIs(s: seq<u32>, block: seq<u8>) returns (w: seq<u32>, a: seq<u32>, e: seq<u32>)
    requires |s| == 8 && |block| == BLOCK
    ensures |K| == ROUNDS && IsSchedule(block, w) && IsTrace(s, K, w, a, e, ROUNDS)
    ensures var r := Compress(s, block);
      && r[0] == (s[0] + a[67]) % TWO_32 && r[1] == (s[1] + a[66]) % TWO_32
      && r[2] == (s[2] + a[65]) % TWO_32 && r[3] == (s[3] + a[64]) % TWO_32
      && r[4] == (s[4] + e[67]) % TWO_32 && r[5] == (s[5] + e[66]) % TWO_32
      && r[6] == (s[6] + e[65]) % TWO_32 && r[7] == (s[7] + e[64]) % TWO_32
  {
    w := Schedule(block, ROUNDS);
    ScheduleIs(block);
    a, e := TraceOf(s, K, w, ROUNDS);
    UnfoldCompress(Folds(), s, block);
  }

  /** The digest spells the chaining value, most significant byte first. */
  lemma {:induction false} OutputIs(s: seq<u32>, n: nat, i: nat)
    requires i < n <= |s|
    ensures Big(Output(s, n)[4 * i..4 * i + 4], 256) == s[i]
    decreases n
  {
    var before, word := Output(s, n - 1), BigEndian(s[n - 1], 4);
    assert Output(s, n) == before + word && |before| == 4 * (n - 1);
    if i < n - 1 {
      OutputIs(s, n - 1, i);
      assert Output(s, n)[4 * i..4 * i + 4] == before[4 * i..4 * i + 4];
    } else {
      assert Output(s, n)[4 * i..4 * i + 4] == word;
      assert Pow(256, 4) == TWO_32;
      BigEndianIs(s[i], 4);
    }
  }

  // -------------------------------------------------------------------- digest

  /** The chaining values over the first n blocks. */
  ghost predicate IsChain(p: seq<u8>, h: seq<seq<u32>>, n: nat)
    requires BLOCK * n <= |p|
  {
    && |h| == n + 1 && (forall i :: 0 <= i <= n ==> |h[i]| == 8) && h[0] == IV
    && forall i :: 0 <= i < n ==> IsLink(p, h, i)
  }

  ghost predicate IsLink(p: seq<u8>, h: seq<seq<u32>>, i: nat)
    requires BLOCK * i + BLOCK <= |p| && i + 1 < |h| && |h[i]| == 8
  {
    h[i + 1] == Compress(h[i], p[BLOCK * i..BLOCK * i + BLOCK])
  }

  lemma {:induction false} ChainOf(p: seq<u8>, n: nat) returns (h: seq<seq<u32>>)
    requires BLOCK * n <= |p|
    ensures IsChain(p, h, n) && h[n] == Fold(IV, p[..BLOCK * n])
    decreases n
  {
    if n == 0 {
      h := [IV];
      assert p[..0] == [];
    } else {
      var g := ChainOf(p, n - 1);
      var q := BLOCK * (n - 1);
      UnfoldWhole(Folds(), q);
      FoldBlock(IV, p, q);
      h := g + [Compress(g[n - 1], p[q..q + BLOCK])];
      forall i | 0 <= i < n
        ensures IsLink(p, h, i)
      {
        if i < n - 1 {
          assert IsLink(p, g, i);
        }
      }
    }
  }

  /** The digest: the padded message block by block from the initial value, and the last chaining
      value spelled out. */
  lemma DigestIs(m: seq<u8>, bits: nat) returns (n: nat, h: seq<seq<u32>>)
    ensures var p := Pad(m, bits, BLOCK, FIELD);
      |p| == BLOCK * n && IsChain(p, h, n)
    ensures forall j :: 0 <= j < 8 ==> Big(HashWithLength(m, bits)[4 * j..4 * j + 4], 256) == h[n][j]
  {
    var p := Pad(m, bits, BLOCK, FIELD);
    PadIsWhole(m, bits, BLOCK, FIELD);
    n := |p| / BLOCK;
    h := ChainOf(p, n);
    assert p[..BLOCK * n] == p;
    UnfoldChain(Folds(), p);
    forall j | 0 <= j < 8
      ensures Big(HashWithLength(m, bits)[4 * j..4 * j + 4], 256) == h[n][j]
    {
      OutputIs(h[n], 8, j);
    }
  }
}
