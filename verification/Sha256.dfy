/** core/vl_sha256.c: SHA-256 as a streaming context over the block function of FIPS 180-4. */
module Sha256 {
  import opened Words
  import opened Digits
  import opened Modular
  import opened Padding
  import Bits

  const BLOCK: nat := 64
  const FIELD: nat := 8
  const ROUNDS: nat := 64

  const K0: seq<u32> := [
    0x428a_2f98, 0x7137_4491, 0xb5c0_fbcf, 0xe9b5_dba5, 0x3956_c25b, 0x59f1_11f1, 0x923f_82a4, 0xab1c_5ed5]
  const K1: seq<u32> := [
    0xd807_aa98, 0x1283_5b01, 0x2431_85be, 0x550c_7dc3, 0x72be_5d74, 0x80de_b1fe, 0x9bdc_06a7, 0xc19b_f174]
  const K2: seq<u32> := [
    0xe49b_69c1, 0xefbe_4786, 0x0fc1_9dc6, 0x240c_a1cc, 0x2de9_2c6f, 0x4a74_84aa, 0x5cb0_a9dc, 0x76f9_88da]
  const K3: seq<u32> := [
    0x983e_5152, 0xa831_c66d, 0xb003_27c8, 0xbf59_7fc7, 0xc6e0_0bf3, 0xd5a7_9147, 0x06ca_6351, 0x1429_2967]
  const K4: seq<u32> := [
    0x27b7_0a85, 0x2e1b_2138, 0x4d2c_6dfc, 0x5338_0d13, 0x650a_7354, 0x766a_0abb, 0x81c2_c92e, 0x9272_2c85]
  const K5: seq<u32> := [
    0xa2bf_e8a1, 0xa81a_664b, 0xc24b_8b70, 0xc76c_51a3, 0xd192_e819, 0xd699_0624, 0xf40e_3585, 0x106a_a070]
  const K6: seq<u32> := [
    0x19a4_c116, 0x1e37_6c08, 0x2748_774c, 0x34b0_bcb5, 0x391c_0cb3, 0x4ed8_aa4a, 0x5b9c_ca4f, 0x682e_6ff3]
  const K7: seq<u32> := [
    0x748f_82ee, 0x78a5_636f, 0x84c8_7814, 0x8cc7_0208, 0x90be_fffa, 0xa450_6ceb, 0xbef9_a3f7, 0xc671_78f2]

  /** The round constants, in rows of eight. */
  const K_FIRST: seq<u32> := K0 + K1 + K2 + K3
  const K_LAST: seq<u32> := K4 + K5 + K6 + K7
  const K: seq<u32> := K_FIRST + K_LAST

  const IV: seq<u32> := [
    0x6a09_e667, 0xbb67_ae85, 0x3c6e_f372, 0xa54f_f53a,
    0x510e_527f, 0x9b05_688c, 0x1f83_d9ab, 0x5be0_cd19]

  // ------------------------------------------------------------ block function

  lemma WordPower()
    ensures Pow(2, 32) == TWO_32
  {
    var b := 2;
    assert Pow(2, 8) == 256;
    PowAdd(b, 8, 8);
    PowAdd(b, 16, 16);
    PowAdd(b, 32, 32);
  }

  function Xor(x: u32, y: u32): u32
  {
    WordPower();
    Bits.XorFits(x, y, 32);
    Bits.Xor(x, y, 32)
  }

  function And(x: u32, y: u32): u32
  {
    WordPower();
    Bits.AndFits(x, y, 32);
    Bits.And(x, y, 32)
  }

  function Or(x: u32, y: u32): u32
  {
    WordPower();
    Bits.OrFits(x, y, 32);
    Bits.Or(x, y, 32)
  }

  function Not(x: u32): u32
  {
    TWO_32 - 1 - x
  }

  function Shl(x: u32, n: nat): u32
  {
    x * Pow(2, n) % TWO_32
  }

  function Lsr(x: u32, n: nat): u32
  {
    PowPositive(2, n);
    MulMono(1, Pow(2, n), x / Pow(2, n));
    x / Pow(2, n)
  }

  function Rotr(x: u32, n: nat): u32
    requires 0 < n < 32
  {
    Or(Lsr(x, n), Shl(x, 32 - n))
  }

  /** The logical functions of section 4.1 of FIPS 180-4. */
  datatype Logical = SMALL0 | SMALL1 | BIG0 | BIG1 | CH | MAJ

  function Evaluate(f: Logical, x: u32, y: u32, z: u32): u32
  {
    match f
    case SMALL0 => Xor(Xor(Rotr(x, 7), Rotr(x, 18)), Lsr(x, 3))
    case SMALL1 => Xor(Xor(Rotr(x, 17), Rotr(x, 19)), Lsr(x, 10))
    case BIG0 => Xor(Xor(Rotr(x, 2), Rotr(x, 13)), Rotr(x, 22))
    case BIG1 => Xor(Xor(Rotr(x, 6), Rotr(x, 11)), Rotr(x, 25))
    case CH => Xor(And(x, y), And(Not(x), z))
    case MAJ => Xor(Xor(And(x, y), And(x, z)), And(y, z))
  }

  /** The same, kept folded. */
  ghost function Mix(f: Logical, x: u32, y: u32, z: u32): u32
  {
    MixBy(Folds(), f, x, y, z)
  }

  ghost function MixBy(n: nat, f: Logical, x: u32, y: u32, z: u32): u32
  {
    if n == 0 then Evaluate(f, x, y, z) else MixBy(n - 1, f, x, y, z)
  }

  lemma {:induction false} UnfoldMix(n: nat, f: Logical, x: u32, y: u32, z: u32)
    ensures MixBy(n, f, x, y, z) == Evaluate(f, x, y, z)
  {
    if n != 0 {
      UnfoldMix(n - 1, f, x, y, z);
    }
  }

  method Mixed(f: Logical, x: u32, y: u32, z: u32) returns (r: u32)
    ensures r == Mix(f, x, y, z)
  {
    UnfoldMix(Folds(), f, x, y, z);
    r := Evaluate(f, x, y, z);
  }

  /** The first n bytes of word i of a block, most significant first. */
  function Load(block: seq<u8>, i: nat, n: nat): (v: int)
    requires 4 * i + n <= |block|
    ensures v >= 0
    decreases n, i
  {
    if n == 0 then 0 else 256 * Load(block, i, n - 1) + block[4 * i + n - 1]
  }

  lemma {:induction false} LoadFits(block: seq<u8>, i: nat, n: nat)
    requires 4 * i + n <= |block|
    ensures Load(block, i, n) < Pow(256, n)
    decreases n
  {
    if n != 0 {
      LoadFits(block, i, n - 1);
    }
  }

  function LoadWord(block: seq<u8>, i: nat): u32
    requires 4 * i + 4 <= |block|
  {
    LoadFits(block, i, 4);
    assert Pow(256, 4) == TWO_32;
    Load(block, i, 4)
  }

  /** Word n of the message schedule, from the words before it. */
  ghost function Expanded(w: seq<u32>): u32
    requires 16 <= |w|
  {
    var n := |w|;
    (w[n - 16] + Mix(SMALL0, w[n - 15], 0, 0) + w[n - 7] + Mix(SMALL1, w[n - 2], 0, 0)) % TWO_32
  }

  /** The first n words of the message schedule. */
  ghost function Schedule(block: seq<u8>, n: nat): (w: seq<u32>)
    requires |block| == BLOCK
    ensures |w| == n
    decreases n, block
  {
    if n == 0 then []
    else
      var w := Schedule(block, n - 1);
      w + [if n <= 16 then LoadWord(block, n - 1) else Expanded(w)]
  }

  datatype Vars = Vars(a: u32, b: u32, c: u32, d: u32, e: u32, f: u32, g: u32, h: u32)

  /** One round of section 6.2.2 of FIPS 180-4. */
  ghost function Round(v: Vars, k: u32, w: u32): Vars
  {
    var t1 := (v.h + Mix(BIG1, v.e, 0, 0) + Mix(CH, v.e, v.f, v.g) + k + w) % TWO_32;
    var t2 := (Mix(BIG0, v.a, 0, 0) + Mix(MAJ, v.a, v.b, v.c)) % TWO_32;
    Vars((t1 + t2) % TWO_32, v.a, v.b, v.c, (v.d + t1) % TWO_32, v.e, v.f, v.g)
  }

  ghost function Rounds(v: Vars, k: seq<u32>, w: seq<u32>, n: nat): Vars
    requires n <= |k| && n <= |w|
    decreases n, v
  {
    if n == 0 then v else Round(Rounds(v, k, w, n - 1), k[n - 1], w[n - 1])
  }

  function FromState(s: seq<u32>): Vars
    requires |s| == 8
  {
    Vars(s[0], s[1], s[2], s[3], s[4], s[5], s[6], s[7])
  }

  function AddState(s: seq<u32>, v: Vars): (r: seq<u32>)
    requires |s| == 8
    ensures |r| == 8
  {
    [(s[0] + v.a) % TWO_32, (s[1] + v.b) % TWO_32, (s[2] + v.c) % TWO_32, (s[3] + v.d) % TWO_32,
     (s[4] + v.e) % TWO_32, (s[5] + v.f) % TWO_32, (s[6] + v.g) % TWO_32, (s[7] + v.h) % TWO_32]
  }

  ghost function Compressed(s: seq<u32>, k: seq<u32>, block: seq<u8>): (r: seq<u32>)
    requires |s| == 8 && |k| == ROUNDS && |block| == BLOCK
    ensures |r| == 8
  {
    AddState(s, Rounds(FromState(s), k, Schedule(block, ROUNDS), ROUNDS))
  }

  /** The chaining value after one block; kept folded. */
  ghost function Compress(s: seq<u32>, block: seq<u8>): (r: seq<u32>)
    requires |s| == 8 && |block| == BLOCK
    ensures |r| == 8
  {
    CompressBy(Folds(), s, block)
  }

  ghost function CompressBy(n: nat, s: seq<u32>, block: seq<u8>): (r: seq<u32>)
    requires |s| == 8 && |block| == BLOCK
    ensures |r| == 8
  {
    if n != 0 then CompressBy(n - 1, s, block) else Compressed(s, K, block)
  }

  lemma {:induction false} UnfoldCompress(n: nat, s: seq<u32>, block: seq<u8>)
    requires |s| == 8 && |block| == BLOCK
    ensures CompressBy(n, s, block) == Compressed(s, K, block)
  {
    if n != 0 {
      UnfoldCompress(n - 1, s, block);
    }
  }

  /** Bytes shifted to their places do not overlap. */
  lemma JoinBytes(a: int, b: int, c: int, d: int, w: nat)
    requires 0 <= a < 256 && 0 <= b < 256 && 0 <= c < 256 && 0 <= d < 256 && w == 32
    ensures Bits.Or(Bits.Or(Bits.Or(a * 0x100_0000, b * 0x1_0000, w), c * 0x100, w), d, w)
         == 256 * (256 * (256 * a + b) + c) + d
  {
    WordPower();
    assert Pow(2, 8) == 0x100;
    PowAdd(2, 8, 8);
    PowAdd(2, 16, 8);
    Bits.OrDisjoint(a, b * 0x1_0000, 24, w);
    Bits.OrDisjoint(256 * a + b, c * 0x100, 16, w);
    Bits.OrDisjoint(256 * (256 * a + b) + c, d, 8, w);
  }

  /** A big-endian load. */
  method LoadBlockWord(block: seq<u8>, i: nat) returns (v: u32)
    requires |block| == BLOCK && i < 16
    ensures v == LoadWord(block, i)
  {
    var a: int, b: int, c: int, d: int := block[i * 4], block[i * 4 + 1], block[i * 4 + 2], block[i * 4 + 3];
    JoinBytes(a, b, c, d, 32);
    LoadFour(block, i, 4);
    v := Bits.Or(Bits.Or(Bits.Or(a * 0x100_0000, b * 0x1_0000, 32), c * 0x100, 32), d, 32);
  }

  lemma LoadFour(block: seq<u8>, i: nat, n: nat)
    requires n == 4 && 4 * i + 4 <= |block|
    ensures Load(block, i, n)
         == 256 * (256 * (256 * (block[4 * i] as int) + block[4 * i + 1]) + block[4 * i + 2]) + block[4 * i + 3]
  {
    assert Load(block, i, 0) == 0;
    assert Load(block, i, 1) == block[4 * i];
    assert Load(block, i, 2) == 256 * Load(block, i, 1) + block[4 * i + 1];
    assert Load(block, i, 3) == 256 * Load(block, i, 2) + block[4 * i + 2];
  }

  /** One more word of the message schedule. */
  method NextWord(w: array<u32>, i: nat) returns (v: u32)
    requires 16 <= i < w.Length
    ensures v == Expanded(w[..i])
  {
    var s0 := Mixed(SMALL0, w[i - 15], 0, 0);
    var s1 := Mixed(SMALL1, w[i - 2], 0, 0);
    v := (w[i - 16] + s0 + w[i - 7] + s1) % TWO_32;
  }

  /** The message schedule, word by word. */
  method Expand(block: seq<u8>) returns (w: array<u32>)
    requires |block| == BLOCK
    ensures fresh(w) && w[..] == Schedule(block, ROUNDS)
  {
    w := new u32[ROUNDS](_ => 0);
    for i := 0 to ROUNDS
      invariant w[..i] == Schedule(block, i)
    {
      ghost var words := w[..i];
      if i < 16 {
        w[i] := LoadBlockWord(block, i);
      } else {
        w[i] := NextWord(w, i);
      }
      assert w[..i + 1] == words + [w[i]];
    }
    assert w[..] == w[..ROUNDS];
  }

  /** The rounds on eight working variables. */
  method RunRounds(s: seq<u32>, k: seq<u32>, w: array<u32>) returns (v: Vars)
    requires |s| == 8 && |k| == ROUNDS && w.Length == ROUNDS
    ensures v == Rounds(FromState(s), k, w[..], ROUNDS)
  {
    var a: u32, b: u32, c: u32, d: u32 := s[0], s[1], s[2], s[3];
    var e: u32, f: u32, g: u32, h: u32 := s[4], s[5], s[6], s[7];
    for i := 0 to ROUNDS
      invariant Vars(a, b, c, d, e, f, g, h) == Rounds(FromState(s), k, w[..], i)
    {
      var s1 := Mixed(BIG1, e, 0, 0);
      var ch := Mixed(CH, e, f, g);
      var t1: u32 := (h + s1 + ch + k[i] + w[i]) % TWO_32;
      var s0 := Mixed(BIG0, a, 0, 0);
      var maj := Mixed(MAJ, a, b, c);
      var t2: u32 := (s0 + maj) % TWO_32;
      h, g, f := g, f, e;
      e := (d + t1) % TWO_32;
      d, c, b := c, b, a;
      a := (t1 + t2) % TWO_32;
    }
    v := Vars(a, b, c, d, e, f, g, h);
  }

  /** Adds the working variables to the chaining value. */
  method AddInto(state: array<u32>, v: Vars)
    requires state.Length == 8
    modifies state
    ensures state[..] == AddState(old(state[..]), v)
  {
    var s := state[..];
    state[0] := (s[0] + v.a) % TWO_32;
    state[1] := (s[1] + v.b) % TWO_32;
    state[2] := (s[2] + v.c) % TWO_32;
    state[3] := (s[3] + v.d) % TWO_32;
    state[4] := (s[4] + v.e) % TWO_32;
    state[5] := (s[5] + v.f) % TWO_32;
    state[6] := (s[6] + v.g) % TWO_32;
    state[7] := (s[7] + v.h) % TWO_32;
  }

  /** sha256_compress, in place on the chaining value. */
  method CompressBlock(state: array<u32>, block: seq<u8>)
    requires state.Length == 8 && |block| == BLOCK
    modifies state
    ensures state[..] == Compress(old(state[..]), block)
  {
    ghost var s := state[..];
    var w := Expand(block);
    var v := RunRounds(state[..], K, w);
    UnfoldCompress(Folds(), s, block);
    AddInto(state, v);
  }

  // ----------------------------------------------------------------- streaming

  /** The chaining value after all whole blocks of a message. */
  ghost function Fold(h: seq<u32>, m: seq<u8>): (r: seq<u32>)
    requires |h| == 8
    ensures |r| == 8
    decreases |m|
  {
    if |m| < BLOCK then h else Fold(Compress(h, m[..BLOCK]), m[BLOCK..])
  }

  lemma {:induction false} FoldAppend(h: seq<u32>, m: seq<u8>, n: seq<u8>)
    requires |h| == 8 && |m| % BLOCK == 0
    ensures Fold(h, m + n) == Fold(Fold(h, m), n)
    decreases |m|
  {
    if m == [] {
      assert m + n == n;
    } else {
      assert (m + n)[..BLOCK] == m[..BLOCK];
      assert (m + n)[BLOCK..] == m[BLOCK..] + n;
      FoldAppend(Compress(h, m[..BLOCK]), m[BLOCK..], n);
    }
  }

  /** A number of whole blocks; kept folded. */
  ghost predicate Whole(n: int)
  {
    WholeBy(Folds(), n)
  }

  ghost predicate WholeBy(k: nat, n: int)
  {
    if k == 0 then n % BLOCK == 0 else WholeBy(k - 1, n)
  }

  lemma {:induction false} UnfoldWhole(k: nat, n: int)
    ensures WholeBy(k, n) == (n % BLOCK == 0)
  {
    if k != 0 {
      UnfoldWhole(k - 1, n);
    }
  }

  lemma WholeStart()
    ensures Whole(0) && Whole(BLOCK)
  {
    UnfoldWhole(Folds(), 0);
    UnfoldWhole(Folds(), BLOCK);
  }

  lemma WholeAdd(m: int, n: int)
    requires Whole(m)
    ensures Whole(n) == Whole(m + n)
  {
    UnfoldWhole(Folds(), m);
    UnfoldWhole(Folds(), n);
    UnfoldWhole(Folds(), m + n);
  }

  /** One more block. */
  lemma FoldBlock(h: seq<u32>, m: seq<u8>, q: nat)
    requires |h| == 8 && Whole(q) && q + BLOCK <= |m|
    ensures Fold(h, m[..q + BLOCK]) == Compress(Fold(h, m[..q]), m[q..q + BLOCK])
  {
    NextPart(m, q, BLOCK);
    FoldNext(h, m[..q], m[q..q + BLOCK]);
  }

  lemma FoldNext(h: seq<u32>, m: seq<u8>, b: seq<u8>)
    requires |h| == 8 && Whole(|m|) && |b| == BLOCK
    ensures Fold(h, m + b) == Compress(Fold(h, m), b)
  {
    FoldWhole(h, m, b);
    FoldOne(Fold(h, m), b);
  }

  lemma FoldWhole(h: seq<u32>, m: seq<u8>, n: seq<u8>)
    requires |h| == 8 && Whole(|m|)
    ensures Fold(h, m + n) == Fold(Fold(h, m), n)
  {
    UnfoldWhole(Folds(), |m|);
    FoldAppend(h, m, n);
  }

  lemma FoldOne(h: seq<u32>, b: seq<u8>)
    requires |h| == 8 && |b| == BLOCK
    ensures Fold(h, b) == Compress(h, b)
  {
    assert b[..BLOCK] == b && b[BLOCK..] == [];
  }

  /** The chaining value after the whole blocks of a message; kept folded. */
  ghost function Chain(m: seq<u8>): (r: seq<u32>)
    ensures |r| == 8
  {
    ChainBy(Folds(), m)
  }

  ghost function ChainBy(n: nat, m: seq<u8>): (r: seq<u32>)
    ensures |r| == 8
  {
    if n == 0 then Fold(IV, m) else ChainBy(n - 1, m)
  }

  lemma {:induction false} UnfoldChain(n: nat, m: seq<u8>)
    ensures ChainBy(n, m) == Fold(IV, m)
  {
    if n != 0 {
      UnfoldChain(n - 1, m);
    }
  }

  lemma ChainStart()
    ensures Chain([]) == IV
  {
    UnfoldChain(Folds(), []);
  }

  lemma ChainAppend(m: seq<u8>, n: seq<u8>)
    requires Whole(|m|)
    ensures Chain(m + n) == Fold(Chain(m), n)
  {
    UnfoldChain(Folds(), m);
    UnfoldChain(Folds(), m + n);
    FoldWhole(IV, m, n);
  }

  lemma ChainBlock(m: seq<u8>, b: seq<u8>)
    requires Whole(|m|) && |b| == BLOCK
    ensures Chain(m + b) == Compress(Chain(m), b)
  {
    ChainAppend(m, b);
    FoldOne(Chain(m), b);
  }

  /** The first n words of a chaining value, most significant byte first. */
  function Output(s: seq<u32>, n: nat): (d: seq<u8>)
    requires n <= |s|
    ensures |d| == 4 * n
    decreases n, s
  {
    if n == 0 then [] else Output(s, n - 1) + BigEndian(s[n - 1], 4)
  }

  /** The hash when the length field holds the given number of bits. */
  ghost function HashWithLength(m: seq<u8>, bits: nat): (d: seq<u8>)
    ensures |d| == 32
  {
    Output(Chain(Pad(m, bits, BLOCK, FIELD)), 8)
  }

  /** SHA-256 of a message, as FIPS 180-4 defines it. */
  ghost function Sha256(m: seq<u8>): (d: seq<u8>)
    ensures |d| == 32
  {
    HashWithLength(m, 8 * |m|)
  }

  /** The counter follows the message length. */
  lemma CountUp(count: int, length: nat, added: nat)
    requires count == (8 * length) % TWO_64
    ensures (count + added * 8 % TWO_64) % TWO_64 == (8 * (length + added)) % TWO_64
  {
    AddMod(TWO_64, (8 * length), 8 * added);
  }

  /** Appending to a message appends to its held end. */
  lemma Extend(m: seq<u8>, data: seq<u8>, q: nat)
    requires q <= |m|
    ensures (m + data)[..q] == m[..q] && (m + data)[q..] == m[q..] + data
  {
  }

  lemma DropNone(m: seq<u8>)
    ensures m[..|m| - 0] == m
  {
  }

  /** The standard's length field, as long as the counter does not wrap. */
  lemma WholeLength(m: seq<u8>)
    ensures 8 * |m| < TWO_64 ==> HashWithLength(m, 8 * |m| % TWO_64) == Sha256(m)
  {
    SmallMod(8 * |m|, TWO_64);
  }

  /** How many zeros follow the marker, seen from the bytes held in the last block. */
  lemma GapFromHeld(length: nat, held: nat)
    requires held < BLOCK && held <= length && Whole(length - held)
    ensures Gap(length, BLOCK, FIELD) ==
      if held + 1 > BLOCK - FIELD then 2 * BLOCK - 1 - held - FIELD else BLOCK - FIELD - 1 - held
  {
    UnfoldWhole(Folds(), length - held);
    var x := BLOCK - FIELD - 1 - held;
    var t := (length - held) / BLOCK;
    assert BLOCK - FIELD - 1 - length == -t * BLOCK + x;
    if x < 0 {
      DivUnique(BLOCK, -t * BLOCK + x, -t - 1, x + BLOCK);
    } else {
      DivUnique(BLOCK, -t * BLOCK + x, -t, x);
    }
  }

  class Context {
    const state: array<u32>
    const buffer: array<u8>
    var count: u64       // bits absorbed, modulo 2^64
    var bufferLen: nat
    ghost var message: seq<u8>

    /** Everything absorbed so far: whole blocks in the chaining value, the rest buffered.
        Inside an operation the buffer may be full. */
    ghost predicate Held()
      reads this, state, buffer
    {
      && state.Length == 8 && buffer.Length == BLOCK
      && bufferLen <= BLOCK && bufferLen <= |message| && Whole(|message| - bufferLen)
      && buffer[..bufferLen] == message[|message| - bufferLen..]
      && state[..] == Chain(message[..|message| - bufferLen])
    }

    ghost predicate Absorbed()
      reads this, state, buffer
    {
      Held() && bufferLen < BLOCK
    }

    ghost predicate Valid()
      reads this, state, buffer
    {
      Absorbed() && count == (8 * |message|) % TWO_64
    }

    constructor ()
      ensures Valid() && message == [] && fresh(state) && fresh(buffer)
    {
      state := new u32[8](i requires 0 <= i < 8 => IV[i]);
      buffer := new u8[BLOCK](_ => 0);
      count := 0;
      bufferLen := 0;
      message := [];
      new;
      ChainStart();
      WholeStart();
      assert state[..] == IV;
      assert message[..0] == [];
    }

    /** memcpy and memset behind the bytes already held. */
    method Append(data: seq<u8>)
      requires Held() && bufferLen + |data| <= BLOCK
      modifies this`bufferLen, this`message, buffer
      ensures Held() && bufferLen == old(bufferLen) + |data| && message == old(message) + data
    {
      ghost var held, q := buffer[..bufferLen], |message| - bufferLen;
      forall k | 0 <= k < |data| {
        buffer[bufferLen + k] := data[k];
      }
      bufferLen := bufferLen + |data|;
      assert buffer[..bufferLen] == held + data;
      Extend(message, data, q);
      message := message + data;
    }

    /** A number of n bytes behind the bytes already held, most significant byte first. */
    method AppendNumber(value: u64, n: nat)
      requires Held() && bufferLen + n <= BLOCK
      modifies this`bufferLen, this`message, buffer
      ensures Held() && bufferLen == old(bufferLen) + n && message == old(message) + BigEndian(value, n)
    {
      ghost var held, q := buffer[..bufferLen], |message| - bufferLen;
      StoreBigEndian(buffer, bufferLen, n, value);
      bufferLen := bufferLen + n;
      assert buffer[..bufferLen] == held + BigEndian(value, n);
      Extend(message, BigEndian(value, n), q);
      message := message + BigEndian(value, n);
    }

    /** Compresses a full buffer. */
    method Flush()
      requires Held() && bufferLen == BLOCK
      modifies this`bufferLen, state
      ensures Absorbed() && bufferLen == 0
    {
      ghost var q := |message| - BLOCK;
      ChainBlock(message[..q], buffer[..]);
      WholeStart();
      WholeAdd(q, BLOCK);
      assert buffer[..BLOCK] == buffer[..];
      assert message[..q] + message[q..] == message;
      CompressBlock(state, buffer[..]);
      bufferLen := 0;
      DropNone(message);
    }

    /** Tops up a partly filled buffer; returns how many bytes it took. */
    method TopUp(data: seq<u8>) returns (take: nat)
      requires Absorbed() && bufferLen > 0
      modifies this`bufferLen, this`message, state, buffer
      ensures take <= |data| && message == old(message) + data[..take]
      ensures Absorbed() && (bufferLen == 0 || take == |data|)
    {
      take := BLOCK - bufferLen;
      if take > |data| {
        take := |data|;
      }
      Append(data[..take]);
      if bufferLen == BLOCK {
        Flush();
      }
    }

    /** Compresses the whole blocks of the data in place; returns how many bytes they are. */
    method CompressAll(data: seq<u8>) returns (p: nat)
      requires state.Length == 8
      modifies state
      ensures p <= |data| < p + BLOCK && Whole(p)
      ensures state[..] == Fold(old(state[..]), data[..p])
    {
      p := 0;
      WholeStart();
      while |data| - p >= BLOCK
        invariant p <= |data| && Whole(p)
        invariant state[..] == Fold(old(state[..]), data[..p])
      {
        FoldBlock(old(state[..]), data, p);
        CompressBlock(state, data[p..p + BLOCK]);
        WholeAdd(p, BLOCK);
        p := p + BLOCK;
      }
    }

    /** Absorbs whole blocks past the empty buffer; returns how many bytes they are. */
    method AbsorbBlocks(data: seq<u8>) returns (p: nat)
      requires Absorbed() && bufferLen == 0
      modifies this`message, state
      ensures Absorbed() && p <= |data| < p + BLOCK && message == old(message) + data[..p]
    {
      DropNone(message);
      p := CompressAll(data);
      ChainAppend(message, data[..p]);
      WholeAdd(|message|, p);
      message := message + data[..p];
      DropNone(message);
    }

    /** Absorbs whole blocks directly, then buffers the rest. */
    method AbsorbRest(data: seq<u8>)
      requires Absorbed() && bufferLen == 0
      modifies this`bufferLen, this`message, state, buffer
      ensures Absorbed() && message == old(message) + data
    {
      var p := AbsorbBlocks(data);
      assert data[..p] + data[p..] == data;
      if |data| > p {
        Append(data[p..]);
      }
    }

    method Absorb(data: seq<u8>)
      requires Absorbed()
      modifies this`bufferLen, this`message, state, buffer
      ensures Absorbed() && message == old(message) + data
    {
      var take := 0;
      if bufferLen > 0 {
        take := TopUp(data);
      }
      assert data[..take] + data[take..] == data;
      ghost var m := message;
      if take < |data| {
        AbsorbRest(data[take..]);
      }
      assert message == m + data[take..];
    }

    method Update(data: seq<u8>)
      requires Valid() && |data| < TWO_64
      modifies this, state, buffer
      ensures Valid() && message == old(message) + data
    {
      if |data| == 0 {
        assert data == [];
        return;
      }
      CountUp(count, |message|, |data|);
      count := (count + |data| * 8 % TWO_64) % TWO_64;
      Absorb(data);
    }

    /** The marker and the zeros up to the length field; when the field no longer fits, the
        zeros fill this block and the next. */
    method CloseMessage()
      requires Absorbed()
      modifies this`bufferLen, this`message, state, buffer
      ensures Held() && bufferLen == BLOCK - FIELD
      ensures message == old(message) + [0x80] + Zeros(Gap(|old(message)|, BLOCK, FIELD))
    {
      ghost var m := message;
      GapFromHeld(|m|, bufferLen);
      Append([0x80]);
      if bufferLen > 56 {
        Append(Zeros(BLOCK - bufferLen));
        Flush();
      }
      ghost var middle := message;
      Append(Zeros(56 - bufferLen));
      assert message == m + [0x80] + Zeros(Gap(|m|, BLOCK, FIELD));
    }

    /** Fills the last block: marker, zeros, and the length in bits. */
    method PadMessage()
      requires Valid()
      modifies this`bufferLen, this`message, state, buffer
      ensures Held() && bufferLen == BLOCK
      ensures message == Pad(old(message), 8 * |old(message)| % TWO_64, BLOCK, FIELD)
    {
      ghost var m := message;
      var bits := count;
      CloseMessage();
      AppendNumber(bits, 8);
      assert message == Pad(m, bits, BLOCK, FIELD);
    }

    /** Pads, closes and returns the digest; the context is wiped. */
    method Final() returns (out: seq<u8>)
      requires Valid()
      modifies this, state, buffer
      ensures out == HashWithLength(old(message), 8 * |old(message)| % TWO_64)
      ensures message == [] && count == 0 && bufferLen == 0
      ensures (forall k :: 0 <= k < 8 ==> state[k] == 0) && (forall k :: 0 <= k < BLOCK ==> buffer[k] == 0)
    {
      PadMessage();
      Flush();
      DropNone(message);
      out := Digest();
      Wipe();
    }

    method Digest() returns (out: seq<u8>)
      requires state.Length == 8
      ensures out == Output(state[..], 8)
    {
      var bytes := new u8[4 * 8](_ => 0);
      for i := 0 to 8
        invariant bytes[..4 * i] == Output(state[..], i)
      {
        ghost var before := bytes[..4 * i];
        StoreBigEndian(bytes, 4 * i, 4, state[i]);
        assert bytes[..4 * (i + 1)] == before + BigEndian(state[i], 4);
      }
      out := bytes[..];
    }

    method Wipe()
      requires state.Length == 8 && buffer.Length == BLOCK
      modifies this, state, buffer
      ensures message == [] && count == 0 && bufferLen == 0
      ensures (forall k :: 0 <= k < 8 ==> state[k] == 0) && (forall k :: 0 <= k < BLOCK ==> buffer[k] == 0)
    {
      count, bufferLen, message := 0, 0, [];
      forall k | 0 <= k < 8 {
        state[k] := 0;
      }
      forall k | 0 <= k < BLOCK {
        buffer[k] := 0;
      }
    }
  }

  /** Init, one update a part, final. However a message is cut up, and whichever parts are
      empty, the digest is that of the whole. */
  method HashParts(parts: seq<seq<u8>>) returns (out: seq<u8>)
    requires forall k :: 0 <= k < |parts| ==> |parts[k]| < TWO_64
    ensures out == HashWithLength(Flatten(parts), 8 * |Flatten(parts)| % TWO_64)
    ensures 8 * |Flatten(parts)| < TWO_64 ==> out == Sha256(Flatten(parts))
  {
    var ctx := new Context();
    for i := 0 to |parts|
      invariant ctx.Valid() && ctx.message == Flatten(parts[..i])
      invariant fresh(ctx) && fresh(ctx.state) && fresh(ctx.buffer)
    {
      FlattenSnoc(parts, i);
      ctx.Update(parts[i]);
    }
    assert parts[..|parts|] == parts;
    WholeLength(Flatten(parts));
    out := ctx.Final();
  }
}
