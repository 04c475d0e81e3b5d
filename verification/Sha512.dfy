/** core/vl_sha512.c: SHA-512 as a streaming context over the block function of FIPS 180-4. */
module Sha512 {
  import opened Words
  import opened Digits
  import opened Modular
  import opened Padding
  import Bits

  const BLOCK: nat := 128
  const FIELD: nat := 16
  const ROUNDS: nat := 80

  const K0: seq<u64> := [
    0x428a_2f98_d728_ae22, 0x7137_4491_23ef_65cd, 0xb5c0_fbcf_ec4d_3b2f, 0xe9b5_dba5_8189_dbbc,
    0x3956_c25b_f348_b538, 0x59f1_11f1_b605_d019, 0x923f_82a4_af19_4f9b, 0xab1c_5ed5_da6d_8118]
  const K1: seq<u64> := [
    0xd807_aa98_a303_0242, 0x1283_5b01_4570_6fbe, 0x2431_85be_4ee4_b28c, 0x550c_7dc3_d5ff_b4e2,
    0x72be_5d74_f27b_896f, 0x80de_b1fe_3b16_96b1, 0x9bdc_06a7_25c7_1235, 0xc19b_f174_cf69_2694]
  const K2: seq<u64> := [
    0xe49b_69c1_9ef1_4ad2, 0xefbe_4786_384f_25e3, 0x0fc1_9dc6_8b8c_d5b5, 0x240c_a1cc_77ac_9c65,
    0x2de9_2c6f_592b_0275, 0x4a74_84aa_6ea6_e483, 0x5cb0_a9dc_bd41_fbd4, 0x76f9_88da_8311_53b5]
  const K3: seq<u64> := [
    0x983e_5152_ee66_dfab, 0xa831_c66d_2db4_3210, 0xb003_27c8_98fb_213f, 0xbf59_7fc7_beef_0ee4,
    0xc6e0_0bf3_3da8_8fc2, 0xd5a7_9147_930a_a725, 0x06ca_6351_e003_826f, 0x1429_2967_0a0e_6e70]
  const K4: seq<u64> := [
    0x27b7_0a85_46d2_2ffc, 0x2e1b_2138_5c26_c926, 0x4d2c_6dfc_5ac4_2aed, 0x5338_0d13_9d95_b3df,
    0x650a_7354_8baf_63de, 0x766a_0abb_3c77_b2a8, 0x81c2_c92e_47ed_aee6, 0x9272_2c85_1482_353b]
  const K5: seq<u64> := [
    0xa2bf_e8a1_4cf1_0364, 0xa81a_664b_bc42_3001, 0xc24b_8b70_d0f8_9791, 0xc76c_51a3_0654_be30,
    0xd192_e819_d6ef_5218, 0xd699_0624_5565_a910, 0xf40e_3585_5771_202a, 0x106a_a070_32bb_d1b8]
  const K6: seq<u64> := [
    0x19a4_c116_b8d2_d0c8, 0x1e37_6c08_5141_ab53, 0x2748_774c_df8e_eb99, 0x34b0_bcb5_e19b_48a8,
    0x391c_0cb3_c5c9_5a63, 0x4ed8_aa4a_e341_8acb, 0x5b9c_ca4f_7763_e373, 0x682e_6ff3_d6b2_b8a3]
  const K7: seq<u64> := [
    0x748f_82ee_5def_b2fc, 0x78a5_636f_4317_2f60, 0x84c8_7814_a1f0_ab72, 0x8cc7_0208_1a64_39ec,
    0x90be_fffa_2363_1e28, 0xa450_6ceb_de82_bde9, 0xbef9_a3f7_b2c6_7915, 0xc671_78f2_e372_532b]
  const K8: seq<u64> := [
    0xca27_3ece_ea26_619c, 0xd186_b8c7_21c0_c207, 0xeada_7dd6_cde0_eb1e, 0xf57d_4f7f_ee6e_d178,
    0x06f0_67aa_7217_6fba, 0x0a63_7dc5_a2c8_98a6, 0x113f_9804_bef9_0dae, 0x1b71_0b35_131c_471b]
  const K9: seq<u64> := [
    0x28db_77f5_2304_7d84, 0x32ca_ab7b_40c7_2493, 0x3c9e_be0a_15c9_bebc, 0x431d_67c4_9c10_0d4c,
    0x4cc5_d4be_cb3e_42b6, 0x597f_299c_fc65_7e2a, 0x5fcb_6fab_3ad6_faec, 0x6c44_198c_4a47_5817]

  /** The round constants, in rows of eight. */
  const K_FIRST: seq<u64> := K0 + K1 + K2 + K3 + K4
  const K_LAST: seq<u64> := K5 + K6 + K7 + K8 + K9
  const K: seq<u64> := K_FIRST + K_LAST

  const IV: seq<u64> := [
    0x6a09_e667_f3bc_c908, 0xbb67_ae85_84ca_a73b, 0x3c6e_f372_fe94_f82b, 0xa54f_f53a_5f1d_36f1,
    0x510e_527f_ade6_82d1, 0x9b05_688c_2b3e_6c1f, 0x1f83_d9ab_fb41_bd6b, 0x5be0_cd19_137e_2179]

  // ------------------------------------------------------------ block function

  lemma WordPower()
    ensures Pow(2, 64) == TWO_64
  {
    var b := 2;
    assert Pow(2, 8) == 256;
    PowAdd(b, 8, 8);
    PowAdd(b, 16, 16);
    PowAdd(b, 32, 32);
  }

  function Xor(x: u64, y: u64): u64
  {
    WordPower();
    Bits.XorFits(x, y, 64);
    Bits.Xor(x, y, 64)
  }

  function And(x: u64, y: u64): u64
  {
    WordPower();
    Bits.AndFits(x, y, 64);
    Bits.And(x, y, 64)
  }

  function Or(x: u64, y: u64): u64
  {
    WordPower();
    Bits.OrFits(x, y, 64);
    Bits.Or(x, y, 64)
  }

  function Not(x: u64): u64
  {
    TWO_64 - 1 - x
  }

  function Shl(x: u64, n: nat): u64
  {
    x * Pow(2, n) % TWO_64
  }

  function Lsr(x: u64, n: nat): u64
  {
    PowPositive(2, n);
    MulMono(1, Pow(2, n), x / Pow(2, n));
    x / Pow(2, n)
  }

  function Rotr(x: u64, n: nat): u64
    requires 0 < n < 64
  {
    Or(Lsr(x, n), Shl(x, 64 - n))
  }

  /** The logical functions of section 4.1 of FIPS 180-4. */
  datatype Logical = SMALL0 | SMALL1 | BIG0 | BIG1 | CH | MAJ

  function Evaluate(f: Logical, x: u64, y: u64, z: u64): u64
  {
    match f
    case SMALL0 => Xor(Xor(Rotr(x, 1), Rotr(x, 8)), Lsr(x, 7))
    case SMALL1 => Xor(Xor(Rotr(x, 19), Rotr(x, 61)), Lsr(x, 6))
    case BIG0 => Xor(Xor(Rotr(x, 28), Rotr(x, 34)), Rotr(x, 39))
    case BIG1 => Xor(Xor(Rotr(x, 14), Rotr(x, 18)), Rotr(x, 41))
    case CH => Xor(And(x, y), And(Not(x), z))
    case MAJ => Xor(Xor(And(x, y), And(x, z)), And(y, z))
  }

  /** The same, kept folded. */
  ghost function Mix(f: Logical, x: u64, y: u64, z: u64): u64
  {
    MixBy(Folds(), f, x, y, z)
  }

  ghost function MixBy(n: nat, f: Logical, x: u64, y: u64, z: u64): u64
  {
    if n == 0 then Evaluate(f, x, y, z) else MixBy(n - 1, f, x, y, z)
  }

  lemma {:induction false} UnfoldMix(n: nat, f: Logical, x: u64, y: u64, z: u64)
    ensures MixBy(n, f, x, y, z) == Evaluate(f, x, y, z)
  {
    if n != 0 {
      UnfoldMix(n - 1, f, x, y, z);
    }
  }

  method Mixed(f: Logical, x: u64, y: u64, z: u64) returns (r: u64)
    ensures r == Mix(f, x, y, z)
  {
    UnfoldMix(Folds(), f, x, y, z);
    r := Evaluate(f, x, y, z);
  }

  /** The first n bytes of word i of a block, most significant first. */
  function Load(block: seq<u8>, i: nat, n: nat): (v: int)
    requires 8 * i + n <= |block|
    ensures v >= 0
    decreases n, i
  {
    if n == 0 then 0 else 256 * Load(block, i, n - 1) + block[8 * i + n - 1]
  }

  lemma {:induction false} LoadFits(block: seq<u8>, i: nat, n: nat)
    requires 8 * i + n <= |block|
    ensures Load(block, i, n) < Pow(256, n)
    decreases n
  {
    if n != 0 {
      LoadFits(block, i, n - 1);
    }
  }

  lemma EightBytes(n: nat)
    requires n == 8
    ensures Pow(256, n) == TWO_64
  {
    assert Pow(256, 4) == TWO_32;
    PowAdd(256, 4, 4);
  }

  function LoadWord(block: seq<u8>, i: nat): u64
    requires 8 * i + 8 <= |block|
  {
    LoadFits(block, i, 8);
    EightBytes(8);
    Load(block, i, 8)
  }

  /** Word n of the message schedule, from the words before it. */
  ghost function Expanded(w: seq<u64>): u64
    requires 16 <= |w|
  {
    var n := |w|;
    (w[n - 16] + Mix(SMALL0, w[n - 15], 0, 0) + w[n - 7] + Mix(SMALL1, w[n - 2], 0, 0)) % TWO_64
  }

  /** The first n words of the message schedule. */
  ghost function Schedule(block: seq<u8>, n: nat): (w: seq<u64>)
    requires |block| == BLOCK
    ensures |w| == n
    decreases n, block
  {
    if n == 0 then []
    else
      var w := Schedule(block, n - 1);
      w + [if n <= 16 then LoadWord(block, n - 1) else Expanded(w)]
  }

  datatype Vars = Vars(a: u64, b: u64, c: u64, d: u64, e: u64, f: u64, g: u64, h: u64)

  /** One round of section 6.4.2 of FIPS 180-4. */
  ghost function Round(v: Vars, k: u64, w: u64): Vars
  {
    var t1 := (v.h + Mix(BIG1, v.e, 0, 0) + Mix(CH, v.e, v.f, v.g) + k + w) % TWO_64;
    var t2 := (Mix(BIG0, v.a, 0, 0) + Mix(MAJ, v.a, v.b, v.c)) % TWO_64;
    Vars((t1 + t2) % TWO_64, v.a, v.b, v.c, (v.d + t1) % TWO_64, v.e, v.f, v.g)
  }

  ghost function Rounds(v: Vars, k: seq<u64>, w: seq<u64>, n: nat): Vars
    requires n <= |k| && n <= |w|
    decreases n, v
  {
    if n == 0 then v else Round(Rounds(v, k, w, n - 1), k[n - 1], w[n - 1])
  }

  function FromState(s: seq<u64>): Vars
    requires |s| == 8
  {
    Vars(s[0], s[1], s[2], s[3], s[4], s[5], s[6], s[7])
  }

  function AddState(s: seq<u64>, v: Vars): (r: seq<u64>)
    requires |s| == 8
    ensures |r| == 8
  {
    [(s[0] + v.a) % TWO_64, (s[1] + v.b) % TWO_64, (s[2] + v.c) % TWO_64, (s[3] + v.d) % TWO_64,
     (s[4] + v.e) % TWO_64, (s[5] + v.f) % TWO_64, (s[6] + v.g) % TWO_64, (s[7] + v.h) % TWO_64]
  }

  ghost function Compressed(s: seq<u64>, k: seq<u64>, block: seq<u8>): (r: seq<u64>)
    requires |s| == 8 && |k| == ROUNDS && |block| == BLOCK
    ensures |r| == 8
  {
    AddState(s, Rounds(FromState(s), k, Schedule(block, ROUNDS), ROUNDS))
  }

  /** The chaining value after one block; kept folded. */
  ghost function Compress(s: seq<u64>, block: seq<u8>): (r: seq<u64>)
    requires |s| == 8 && |block| == BLOCK
    ensures |r| == 8
  {
    CompressBy(Folds(), s, block)
  }

  ghost function CompressBy(n: nat, s: seq<u64>, block: seq<u8>): (r: seq<u64>)
    requires |s| == 8 && |block| == BLOCK
    ensures |r| == 8
  {
    if n != 0 then CompressBy(n - 1, s, block) else Compressed(s, K, block)
  }

  lemma {:induction false} UnfoldCompress(n: nat, s: seq<u64>, block: seq<u8>)
    requires |s| == 8 && |block| == BLOCK
    ensures CompressBy(n, s, block) == Compressed(s, K, block)
  {
    if n != 0 {
      UnfoldCompress(n - 1, s, block);
    }
  }

  /** Shifting in one more byte, as long as the word has room for it. */
  lemma ShiftIn(x: nat, digit: u8, n: nat, w: int)
    requires x < Pow(256, n) && n < 8 && w == 64
    ensures x * 256 < TWO_64 && Bits.Or(x * 256, digit, w) == x * 256 + digit
  {
    EightBytes(8);
    PowGrows(256, n + 1, 8);
    WordPower();
    assert Pow(2, 8) == 256;
    Bits.OrDisjoint(x, digit, 8, w);
  }

  lemma LoadStep(block: seq<u8>, i: nat, j: nat, v: u64)
    requires |block| == BLOCK && i < 16 && j < 8 && v == Load(block, i, j)
    ensures Or(v * 256 % TWO_64, block[i * 8 + j]) == Load(block, i, j + 1)
  {
    LoadFits(block, i, j);
    ShiftIn(v, block[i * 8 + j], j, 64);
    SmallMod(v * 256, TWO_64);
  }

  /** A big-endian load. */
  method LoadBlockWord(block: seq<u8>, i: nat) returns (v: u64)
    requires |block| == BLOCK && i < 16
    ensures v == LoadWord(block, i)
  {
    v := 0;
    for j := 0 to 8
      invariant v == Load(block, i, j)
    {
      LoadStep(block, i, j, v);
      v := Or(v * 256 % TWO_64, block[i * 8 + j]);
    }
    assert v == LoadWord(block, i);
  }

  /** One more word of the message schedule. */
  method NextWord(w: array<u64>, i: nat) returns (v: u64)
    requires 16 <= i < w.Length
    ensures v == Expanded(w[..i])
  {
    var s0 := Mixed(SMALL0, w[i - 15], 0, 0);
    var s1 := Mixed(SMALL1, w[i - 2], 0, 0);
    v := (w[i - 16] + s0 + w[i - 7] + s1) % TWO_64;
  }

  /** The message schedule, word by word. */
  method Expand(block: seq<u8>) returns (w: array<u64>)
    requires |block| == BLOCK
    ensures fresh(w) && w[..] == Schedule(block, ROUNDS)
  {
    w := new u64[ROUNDS](_ => 0);
    for i := 0 to ROUNDS
      invariant w[..i] == Schedule(block, i)
    {
      ghost var words := w[..i];
      if i < 16 {
        w[i] := LoadBlockWord(block, i);
      } else {
        w[i] := NextWord(w, i);
      }
      assert w[..i + 1] == words + [w[i]];
    }
    assert w[..] == w[..ROUNDS];
  }

  /** The rounds on eight working variables. */
  method RunRounds(s: seq<u64>, k: seq<u64>, w: array<u64>) returns (v: Vars)
    requires |s| == 8 && |k| == ROUNDS && w.Length == ROUNDS
    ensures v == Rounds(FromState(s), k, w[..], ROUNDS)
  {
    var a: u64, b: u64, c: u64, d: u64 := s[0], s[1], s[2], s[3];
    var e: u64, f: u64, g: u64, h: u64 := s[4], s[5], s[6], s[7];
    for i := 0 to ROUNDS
      invariant Vars(a, b, c, d, e, f, g, h) == Rounds(FromState(s), k, w[..], i)
    {
      var s1 := Mixed(BIG1, e, 0, 0);
      var ch := Mixed(CH, e, f, g);
      var t1: u64 := (h + s1 + ch + k[i] + w[i]) % TWO_64;
      var s0 := Mixed(BIG0, a, 0, 0);
      var maj := Mixed(MAJ, a, b, c);
      var t2: u64 := (s0 + maj) % TWO_64;
      h, g, f := g, f, e;
      e := (d + t1) % TWO_64;
      d, c, b := c, b, a;
      a := (t1 + t2) % TWO_64;
    }
    v := Vars(a, b, c, d, e, f, g, h);
  }

  /** Adds the working variables to the chaining value. */
  method AddInto(state: array<u64>, v: Vars)
    requires state.Length == 8
    modifies state
    ensures state[..] == AddState(old(state[..]), v)
  {
    var s := state[..];
    state[0] := (s[0] + v.a) % TWO_64;
    state[1] := (s[1] + v.b) % TWO_64;
    state[2] := (s[2] + v.c) % TWO_64;
    state[3] := (s[3] + v.d) % TWO_64;
    state[4] := (s[4] + v.e) % TWO_64;
    state[5] := (s[5] + v.f) % TWO_64;
    state[6] := (s[6] + v.g) % TWO_64;
    state[7] := (s[7] + v.h) % TWO_64;
  }

  /** sha512_compress, in place on the chaining value. */
  method CompressBlock(state: array<u64>, block: seq<u8>)
    requires state.Length == 8 && |block| == BLOCK
    modifies state
    ensures state[..] == Compress(old(state[..]), block)
  {
    ghost var s := state[..];
    var w := Expand(block);
    var v := RunRounds(state[..], K, w);
    UnfoldCompress(Folds(), s, block);
    AddInto(state, v);
  }

  // ----------------------------------------------------------------- streaming

  /** The chaining value after all whole blocks of a message. */
  ghost function Fold(h: seq<u64>, m: seq<u8>): (r: seq<u64>)
    requires |h| == 8
    ensures |r| == 8
    decreases |m|
  {
    if |m| < BLOCK then h else Fold(Compress(h, m[..BLOCK]), m[BLOCK..])
  }

  lemma {:induction false} FoldAppend(h: seq<u64>, m: seq<u8>, n: seq<u8>)
    requires |h| == 8 && |m| % BLOCK == 0
    ensures Fold(h, m + n) == Fold(Fold(h, m), n)
    decreases |m|
  {
    if m == [] {
      assert m + n == n;
    } else {
      assert (m + n)[..BLOCK] == m[..BLOCK];
      assert (m + n)[BLOCK..] == m[BLOCK..] + n;
      FoldAppend(Compress(h, m[..BLOCK]), m[BLOCK..], n);
    }
  }

  /** A number of whole blocks; kept folded. */
  ghost predicate Whole(n: int)
  {
    WholeBy(Folds(), n)
  }

  ghost predicate WholeBy(k: nat, n: int)
  {
    if k == 0 then n % BLOCK == 0 else WholeBy(k - 1, n)
  }

  lemma {:induction false} UnfoldWhole(k: nat, n: int)
    ensures WholeBy(k, n) == (n % BLOCK == 0)
  {
    if k != 0 {
      UnfoldWhole(k - 1, n);
    }
  }

  lemma WholeStart()
    ensures Whole(0) && Whole(BLOCK)
  {
    UnfoldWhole(Folds(), 0);
    UnfoldWhole(Folds(), BLOCK);
  }

  lemma WholeAdd(m: int, n: int)
    requires Whole(m)
    ensures Whole(n) == Whole(m + n)
  {
    UnfoldWhole(Folds(), m);
    UnfoldWhole(Folds(), n);
    UnfoldWhole(Folds(), m + n);
  }

  /** One more block. */
  lemma FoldBlock(h: seq<u64>, m: seq<u8>, q: nat)
    requires |h| == 8 && Whole(q) && q + BLOCK <= |m|
    ensures Fold(h, m[..q + BLOCK]) == Compress(Fold(h, m[..q]), m[q..q + BLOCK])
  {
    NextPart(m, q, BLOCK);
    FoldNext(h, m[..q], m[q..q + BLOCK]);
  }

  lemma FoldNext(h: seq<u64>, m: seq<u8>, b: seq<u8>)
    requires |h| == 8 && Whole(|m|) && |b| == BLOCK
    ensures Fold(h, m + b) == Compress(Fold(h, m), b)
  {
    FoldWhole(h, m, b);
    FoldOne(Fold(h, m), b);
  }

  lemma FoldWhole(h: seq<u64>, m: seq<u8>, n: seq<u8>)
    requires |h| == 8 && Whole(|m|)
    ensures Fold(h, m + n) == Fold(Fold(h, m), n)
  {
    UnfoldWhole(Folds(), |m|);
    FoldAppend(h, m, n);
  }

  lemma FoldOne(h: seq<u64>, b: seq<u8>)
    requires |h| == 8 && |b| == BLOCK
    ensures Fold(h, b) == Compress(h, b)
  {
    assert b[..BLOCK] == b && b[BLOCK..] == [];
  }

  /** The chaining value after the whole blocks of a message; kept folded. */
  ghost function Chain(m: seq<u8>): (r: seq<u64>)
    ensures |r| == 8
  {
    ChainBy(Folds(), m)
  }

  ghost function ChainBy(n: nat, m: seq<u8>): (r: seq<u64>)
    ensures |r| == 8
  {
    if n == 0 then Fold(IV, m) else ChainBy(n - 1, m)
  }

  lemma {:induction false} UnfoldChain(n: nat, m: seq<u8>)
    ensures ChainBy(n, m) == Fold(IV, m)
  {
    if n != 0 {
      UnfoldChain(n - 1, m);
    }
  }

  lemma ChainStart()
    ensures Chain([]) == IV
  {
    UnfoldChain(Folds(), []);
  }

  lemma ChainAppend(m: seq<u8>, n: seq<u8>)
    requires Whole(|m|)
    ensures Chain(m + n) == Fold(Chain(m), n)
  {
    UnfoldChain(Folds(), m);
    UnfoldChain(Folds(), m + n);
    FoldWhole(IV, m, n);
  }

  lemma ChainBlock(m: seq<u8>, b: seq<u8>)
    requires Whole(|m|) && |b| == BLOCK
    ensures Chain(m + b) == Compress(Chain(m), b)
  {
    ChainAppend(m, b);
    FoldOne(Chain(m), b);
  }

  /** The first n words of a chaining value, most significant byte first. */
  function Output(s: seq<u64>, n: nat): (d: seq<u8>)
    requires n <= |s|
    ensures |d| == 8 * n
    decreases n, s
  {
    if n == 0 then [] else Output(s, n - 1) + BigEndian(s[n - 1], 8)
  }

  /** The hash when the length field holds the given number of bits. */
  ghost function HashWithLength(m: seq<u8>, bits: nat): (d: seq<u8>)
    ensures |d| == 64
  {
    Output(Chain(Pad(m, bits, BLOCK, FIELD)), 8)
  }

  /** SHA-512 of a message, as FIPS 180-4 defines it. */
  ghost function Sha512(m: seq<u8>): (d: seq<u8>)
    ensures |d| == 64
  {
    HashWithLength(m, 8 * |m|)
  }

  /** The counter follows the message length. */
  lemma CountUp(count: int, length: nat, added: nat)
    requires count == length % TWO_64
    ensures (count + added) % TWO_64 == (length + added) % TWO_64
  {
    AddMod(TWO_64, length, added);
  }

  /** Appending to a message appends to its held end. */
  lemma Extend(m: seq<u8>, data: seq<u8>, q: nat)
    requires q <= |m|
    ensures (m + data)[..q] == m[..q] && (m + data)[q..] == m[q..] + data
  {
  }

  lemma DropNone(m: seq<u8>)
    ensures m[..|m| - 0] == m
  {
  }

  /** The standard's length field, as long as the counter does not wrap. */
  lemma WholeLength(m: seq<u8>)
    ensures |m| < TWO_64 ==> HashWithLength(m, 8 * (|m| % TWO_64)) == Sha512(m)
  {
    SmallMod(|m|, TWO_64);
  }

  /** How many zeros follow the marker, seen from the bytes held in the last block. */
  lemma GapFromHeld(length: nat, held: nat)
    requires held < BLOCK && held <= length && Whole(length - held)
    ensures Gap(length, BLOCK, FIELD) ==
      if held + 1 > BLOCK - FIELD then 2 * BLOCK - 1 - held - FIELD else BLOCK - FIELD - 1 - held
  {
    UnfoldWhole(Folds(), length - held);
    var x := BLOCK - FIELD - 1 - held;
    var t := (length - held) / BLOCK;
    assert BLOCK - FIELD - 1 - length == -t * BLOCK + x;
    if x < 0 {
      DivUnique(BLOCK, -t * BLOCK + x, -t - 1, x + BLOCK);
    } else {
      DivUnique(BLOCK, -t * BLOCK + x, -t, x);
    }
  }

  lemma Halves(bytes: u64)
    ensures 8 * bytes == (bytes / 0x2000_0000_0000_0000) * TWO_64 + bytes * 8 % TWO_64
  {
    DivUnique(TWO_64, bytes * 8, bytes / 0x2000_0000_0000_0000, bytes % 0x2000_0000_0000_0000 * 8);
  }

  lemma TwoWords(m: seq<u8>, bits: nat, high: nat, low: nat, n: nat)
    requires n + n == FIELD && low < Pow(256, n) && bits == high * Pow(256, n) + low
    ensures m + [0x80] + Zeros(Gap(|m|, BLOCK, FIELD)) + BigEndian(high, n) + BigEndian(low, n)
         == Pad(m, bits, BLOCK, FIELD)
  {
    BigEndianSplit(high, low, n, n);
    var zeros := Zeros(Gap(|m|, BLOCK, FIELD));
    assert Suffix(|m|, bits, BLOCK, FIELD) == [0x80] + zeros + (BigEndian(high, n) + BigEndian(low, n));
  }

  /** The two words of the 128-bit length field. */
  method LengthWords(bytes: u64, ghost m: seq<u8>) returns (high: u64, low: u64)
    ensures m + [0x80] + Zeros(Gap(|m|, BLOCK, FIELD)) + BigEndian(high, 8) + BigEndian(low, 8)
         == Pad(m, 8 * (bytes as int), BLOCK, FIELD)
  {
    low, high := bytes * 8 % TWO_64, bytes / 0x2000_0000_0000_0000;
    Halves(bytes);
    EightBytes(8);
    TwoWords(m, 8 * (bytes as int), high, low, 8);
  }

  class Context {
    const state: array<u64>
    const buffer: array<u8>
    var count: u64       // bytes absorbed, modulo 2^64
    var bufferLen: nat
    ghost var message: seq<u8>

    /** Everything absorbed so far: whole blocks in the chaining value, the rest buffered.
        Inside an operation the buffer may be full. */
    ghost predicate Held()
      reads this, state, buffer
    {
      && state.Length == 8 && buffer.Length == BLOCK
      && bufferLen <= BLOCK && bufferLen <= |message| && Whole(|message| - bufferLen)
      && buffer[..bufferLen] == message[|message| - bufferLen..]
      && state[..] == Chain(message[..|message| - bufferLen])
    }

    ghost predicate Absorbed()
      reads this, state, buffer
    {
      Held() && bufferLen < BLOCK
    }

    ghost predicate Valid()
      reads this, state, buffer
    {
      Absorbed() && count == |message| % TWO_64
    }

    constructor ()
      ensures Valid() && message == [] && fresh(state) && fresh(buffer)
    {
      state := new u64[8](i requires 0 <= i < 8 => IV[i]);
      buffer := new u8[BLOCK](_ => 0);
      count := 0;
      bufferLen := 0;
      message := [];
      new;
      ChainStart();
      WholeStart();
      assert state[..] == IV;
      assert message[..0] == [];
    }

    /** memcpy and memset behind the bytes already held. */
    method Append(data: seq<u8>)
      requires Held() && bufferLen + |data| <= BLOCK
      modifies this`bufferLen, this`message, buffer
      ensures Held() && bufferLen == old(bufferLen) + |data| && message == old(message) + data
    {
      ghost var held, q := buffer[..bufferLen], |message| - bufferLen;
      forall k | 0 <= k < |data| {
        buffer[bufferLen + k] := data[k];
      }
      bufferLen := bufferLen + |data|;
      assert buffer[..bufferLen] == held + data;
      Extend(message, data, q);
      message := message + data;
    }

    /** A number of n bytes behind the bytes already held, most significant byte first. */
    method AppendNumber(value: u64, n: nat)
      requires Held() && bufferLen + n <= BLOCK
      modifies this`bufferLen, this`message, buffer
      ensures Held() && bufferLen == old(bufferLen) + n && message == old(message) + BigEndian(value, n)
    {
      ghost var held, q := buffer[..bufferLen], |message| - bufferLen;
      StoreBigEndian(buffer, bufferLen, n, value);
      bufferLen := bufferLen + n;
      assert buffer[..bufferLen] == held + BigEndian(value, n);
      Extend(message, BigEndian(value, n), q);
      message := message + BigEndian(value, n);
    }

    /** Compresses a full buffer. */
    method Flush()
      requires Held() && bufferLen == BLOCK
      modifies this`bufferLen, state
      ensures Absorbed() && bufferLen == 0
    {
      ghost var q := |message| - BLOCK;
      ChainBlock(message[..q], buffer[..]);
      WholeStart();
      WholeAdd(q, BLOCK);
      assert buffer[..BLOCK] == buffer[..];
      assert message[..q] + message[q..] == message;
      CompressBlock(state, buffer[..]);
      bufferLen := 0;
      DropNone(message);
    }

    /** Tops up a partly filled buffer; returns how many bytes it took. */
    method TopUp(data: seq<u8>) returns (take: nat)
      requires Absorbed() && bufferLen > 0
      modifies this`bufferLen, this`message, state, buffer
      ensures take <= |data| && message == old(message) + data[..take]
      ensures Absorbed() && (bufferLen == 0 || take == |data|)
    {
      take := BLOCK - bufferLen;
      if take > |data| {
        take := |data|;
      }
      Append(data[..take]);
      if bufferLen == BLOCK {
        Flush();
      }
    }

    /** Compresses the whole blocks of the data in place; returns how many bytes they are. */
    method CompressAll(data: seq<u8>) returns (p: nat)
      requires state.Length == 8
      modifies state
      ensures p <= |data| < p + BLOCK && Whole(p)
      ensures state[..] == Fold(old(state[..]), data[..p])
    {
      p := 0;
      WholeStart();
      while |data| - p >= BLOCK
        invariant p <= |data| && Whole(p)
        invariant state[..] == Fold(old(state[..]), data[..p])
      {
        FoldBlock(old(state[..]), data, p);
        CompressBlock(state, data[p..p + BLOCK]);
        WholeAdd(p, BLOCK);
        p := p + BLOCK;
      }
    }

    /** Absorbs whole blocks past the empty buffer; returns how many bytes they are. */
    method AbsorbBlocks(data: seq<u8>) returns (p: nat)
      requires Absorbed() && bufferLen == 0
      modifies this`message, state
      ensures Absorbed() && p <= |data| < p + BLOCK && message == old(message) + data[..p]
    {
      DropNone(message);
      p := CompressAll(data);
      ChainAppend(message, data[..p]);
      WholeAdd(|message|, p);
      message := message + data[..p];
      DropNone(message);
    }

    /** Absorbs whole blocks directly, then buffers the rest. */
    method AbsorbRest(data: seq<u8>)
      requires Absorbed() && bufferLen == 0
      modifies this`bufferLen, this`message, state, buffer
      ensures Absorbed() && message == old(message) + data
    {
      var p := AbsorbBlocks(data);
      assert data[..p] + data[p..] == data;
      if |data| > p {
        Append(data[p..]);
      }
    }

    method Absorb(data: seq<u8>)
      requires Absorbed()
      modifies this`bufferLen, this`message, state, buffer
      ensures Absorbed() && message == old(message) + data
    {
      var take := 0;
      if bufferLen > 0 {
        take := TopUp(data);
      }
      assert data[..take] + data[take..] == data;
      ghost var m := message;
      if take < |data| {
        AbsorbRest(data[take..]);
      }
      assert message == m + data[take..];
    }

    method Update(data: seq<u8>)
      requires Valid() && |data| < TWO_64
      modifies this, state, buffer
      ensures Valid() && message == old(message) + data
    {
      if |data| == 0 {
        assert data == [];
        return;
      }
      CountUp(count, |message|, |data|);
      count := (count + |data|) % TWO_64;
      Absorb(data);
    }

    /** The marker and the zeros up to the length field; when the field no longer fits, the
        zeros fill this block and the next. */
    method CloseMessage()
      requires Absorbed()
      modifies this`bufferLen, this`message, state, buffer
      ensures Held() && bufferLen == BLOCK - FIELD
      ensures message == old(message) + [0x80] + Zeros(Gap(|old(message)|, BLOCK, FIELD))
    {
      ghost var m := message;
      GapFromHeld(|m|, bufferLen);
      Append([0x80]);
      if bufferLen > 112 {
        Append(Zeros(BLOCK - bufferLen));
        Flush();
      }
      ghost var middle := message;
      Append(Zeros(112 - bufferLen));
      assert message == m + [0x80] + Zeros(Gap(|m|, BLOCK, FIELD));
    }

    /** Fills the last block: marker, zeros, and the length in bits. */
    method PadMessage()
      requires Valid()
      modifies this`bufferLen, this`message, state, buffer
      ensures Held() && bufferLen == BLOCK
      ensures message == Pad(old(message), 8 * (|old(message)| % TWO_64), BLOCK, FIELD)
    {
      ghost var m := message;
      ghost var bytes: nat := count;
      var hi, lo := LengthWords(count, message);
      CloseMessage();
      AppendNumber(hi, 8);
      AppendNumber(lo, 8);
      assert message == Pad(m, 8 * bytes, BLOCK, FIELD);
    }

    /** Pads, closes and returns the digest; the context is wiped. */
    method Final() returns (out: seq<u8>)
      requires Valid()
      modifies this, state, buffer
      ensures out == HashWithLength(old(message), 8 * (|old(message)| % TWO_64))
      ensures message == [] && count == 0 && bufferLen == 0
      ensures (forall k :: 0 <= k < 8 ==> state[k] == 0) && (forall k :: 0 <= k < BLOCK ==> buffer[k] == 0)
    {
      PadMessage();
      Flush();
      DropNone(message);
      out := Digest();
      Wipe();
    }

    method Digest() returns (out: seq<u8>)
      requires state.Length == 8
      ensures out == Output(state[..], 8)
    {
      var bytes := new u8[8 * 8](_ => 0);
      for i := 0 to 8
        invariant bytes[..8 * i] == Output(state[..], i)
      {
        ghost var before := bytes[..8 * i];
        StoreBigEndian(bytes, 8 * i, 8, state[i]);
        assert bytes[..8 * (i + 1)] == before + BigEndian(state[i], 8);
      }
      out := bytes[..];
    }

    method Wipe()
      requires state.Length == 8 && buffer.Length == BLOCK
      modifies this, state, buffer
      ensures message == [] && count == 0 && bufferLen == 0
      ensures (forall k :: 0 <= k < 8 ==> state[k] == 0) && (forall k :: 0 <= k < BLOCK ==> buffer[k] == 0)
    {
      count, bufferLen, message := 0, 0, [];
      forall k | 0 <= k < 8 {
        state[k] := 0;
      }
      forall k | 0 <= k < BLOCK {
        buffer[k] := 0;
      }
    }
  }

  /** Init, one update a part, final. However a message is cut up, and whichever parts are
      empty, the digest is that of the whole. */
  method HashParts(parts: seq<seq<u8>>) returns (out: seq<u8>)
    requires forall k :: 0 <= k < |parts| ==> |parts[k]| < TWO_64
    ensures out == HashWithLength(Flatten(parts), 8 * (|Flatten(parts)| % TWO_64))
    ensures |Flatten(parts)| < TWO_64 ==> out == Sha512(Flatten(parts))
  {
    var ctx := new Context();
    for i := 0 to |parts|
      invariant ctx.Valid() && ctx.message == Flatten(parts[..i])
      invariant fresh(ctx) && fresh(ctx.state) && fresh(ctx.buffer)
    {
      FlattenSnoc(parts, i);
      ctx.Update(parts[i]);
    }
    assert parts[..|parts|] == parts;
    WholeLength(Flatten(parts));
    out := ctx.Final();
  }
}
