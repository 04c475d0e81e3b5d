/** The padding of FIPS 180-4, sections 5.1.1 and 5.1.2, for any block and length-field size. */
module Padding {
  import opened Words
  import opened Digits
  import Modular
  import Numerals

  function Zeros(n: nat): (z: seq<u8>)
    ensures |z| == n
  {
    seq(n, _ => 0)
  }

  /** The last n bytes of x, most significant first. */
  function BigEndian(x: nat, n: nat): (bytes: seq<u8>)
    ensures |bytes| == n
    decreases n, x
  {
    if n == 0 then [] else BigEndian(x / 256, n - 1) + [x % 256]
  }

  /** The number of zero bytes between the marker and the length field. */
  function Gap(length: nat, block: nat, field: nat): nat
    requires 0 < field < block
  {
    (block - field - 1 - length) % block
  }

  function Suffix(length: nat, bits: nat, block: nat, field: nat): seq<u8>
    requires 0 < field < block
  {
    [0x80] + Zeros(Gap(length, block, field)) + BigEndian(bits, field)
  }

  /** The padded message, when the length field holds the given number. */
  function Pad(m: seq<u8>, bits: nat, block: nat, field: nat): (p: seq<u8>)
    requires 0 < field < block
  {
    m + Suffix(|m|, bits, block, field)
  }

  /** Big-endian bytes are the number's digits in base 256, the most significant first. */
  lemma {:induction false} BigEndianIs(x: nat, n: nat)
    requires x < Pow(256, n)
    ensures Numerals.Big(BigEndian(x, n), 256) == x
    decreases n
  {
    if n != 0 {
      BigEndianIs(x / 256, n - 1);
      Numerals.BigSnoc(BigEndian(x / 256, n - 1), x % 256, 256);
    }
  }

  /** A padded message is a whole number of blocks, and no shorter one would be. */
  lemma PadIsWhole(m: seq<u8>, bits: nat, block: nat, field: nat)
    requires 0 < field < block
    ensures |Pad(m, bits, block, field)| % block == 0
    ensures |m| + 1 + field <= |Pad(m, bits, block, field)| < |m| + 1 + field + block
  {
    var g := Gap(|m|, block, field);
    var x := block - field - 1 - |m|;
    assert x == block * (x / block) + g;
    Modular.DivUnique(block, |m| + 1 + g + field, 1 - x / block, 0);
  }

  /** The padded message byte by byte: the message, a one bit, zeros, and the number of bits. */
  lemma PadBytes(m: seq<u8>, bits: nat, block: nat, field: nat)
    requires 0 < field < block && bits < Pow(256, field)
    ensures var p := Pad(m, bits, block, field); var n := |p|;
      && |m| + 1 + field <= n
      && p[..|m|] == m && p[|m|] == 128
      && (forall k :: |m| < k < n - field ==> p[k] == 0)
      && Numerals.Big(p[n - field..], 256) == bits
  {
    var p := Pad(m, bits, block, field);
    BigEndianIs(bits, field);
    assert p[|p| - field..] == BigEndian(bits, field);
  }

  lemma {:induction false} BigEndianInjective(x: nat, y: nat, n: nat)
    requires x < Pow(256, n) && y < Pow(256, n)
    requires BigEndian(x, n) == BigEndian(y, n)
    ensures x == y
    decreases n
  {
    if n != 0 {
      var a, b := BigEndian(x, n), BigEndian(y, n);
      assert a[..n - 1] == BigEndian(x / 256, n - 1) && b[..n - 1] == BigEndian(y / 256, n - 1);
      assert a[n - 1] == x % 256 && b[n - 1] == y % 256;
      BigEndianInjective(x / 256, y / 256, n - 1);
    }
  }

  /** Padding with the true bit length loses nothing. */
  lemma PadInjective(m: seq<u8>, n: seq<u8>, block: nat, field: nat)
    requires 0 < field < block && 8 * |m| < Pow(256, field) && 8 * |n| < Pow(256, field)
    requires Pad(m, 8 * |m|, block, field) == Pad(n, 8 * |n|, block, field)
    ensures m == n
  {
    var p := Pad(m, 8 * |m|, block, field);
    assert p[|p| - field..] == BigEndian(8 * |m|, field);
    assert Pad(n, 8 * |n|, block, field)[|p| - field..] == BigEndian(8 * |n|, field);
    BigEndianInjective(8 * |m|, 8 * |n|, field);
    assert m == p[..|m|] && n == p[..|n|];
  }

  /** A two-word length field. */
  lemma {:induction false} BigEndianSplit(high: nat, low: nat, m: nat, n: nat)
    requires low < Pow(256, n)
    ensures high * Pow(256, n) + low >= 0
    ensures BigEndian(high * Pow(256, n) + low, m + n) == BigEndian(high, m) + BigEndian(low, n)
    decreases n
  {
    PowPositive(256, n);
    if n != 0 {
      PowPositive(256, n - 1);
      var x := high * Pow(256, n) + low;
      ShiftByte(high, Pow(256, n - 1), low);
      BigEndianSplit(high, low / 256, m, n - 1);
      assert BigEndian(x, m + n) == BigEndian(x / 256, m + n - 1) + [x % 256];
      assert m + n - 1 == m + (n - 1);
    }
  }

  lemma ShiftByte(high: nat, w: nat, low: nat)
    ensures (high * (256 * w) + low) % 256 == low % 256
    ensures (high * (256 * w) + low) / 256 == high * w + low / 256
    ensures high * (256 * w) + low >= 0 && high * w + low / 256 >= 0
  {
    var x := high * w;
    assert high * (256 * w) == 256 * x;
  }

  /** x with its n low bytes shifted out. */
  function Shifted(x: nat, n: nat): nat
    decreases n, x
  {
    if n == 0 then x else Shifted(x, n - 1) / 256
  }

  lemma {:induction false} ShiftedFirst(x: nat, n: nat)
    ensures Shifted(x / 256, n) == Shifted(x, n + 1)
    decreases n
  {
    if n != 0 {
      ShiftedFirst(x, n - 1);
    }
  }

  /** One more byte at the front is the next byte up. */
  lemma {:induction false} BigEndianFront(x: nat, n: nat)
    ensures BigEndian(x, n + 1) == [Shifted(x, n) % 256] + BigEndian(x, n)
    decreases n
  {
    if n == 0 {
      assert BigEndian(x / 256, 0) == [];
    } else {
      BigEndianFront(x / 256, n - 1);
      ShiftedFirst(x, n - 1);
      assert BigEndian(x, n + 1) == BigEndian(x / 256, n) + [x % 256];
      assert BigEndian(x, n) == BigEndian(x / 256, n - 1) + [x % 256];
    }
  }

  /** A multi-byte number written most significant byte first, from its end. */
  method StoreBigEndian(buffer: array<u8>, at: nat, n: nat, value: nat)
    requires at + n <= buffer.Length
    modifies buffer
    ensures buffer[..] == old(buffer[..at]) + BigEndian(value, n) + old(buffer[at + n..])
  {
    var x := value;
    for i := 0 to n
      invariant x == Shifted(value, i)
      invariant buffer[at + n - i..at + n] == BigEndian(value, i)
      invariant buffer[..at + n - i] == old(buffer[..at + n - i])
      invariant buffer[at + n..] == old(buffer[at + n..])
    {
      ghost var written := buffer[at + n - i..at + n];
      BigEndianFront(value, i);
      buffer[at + n - 1 - i] := x % 256;
      assert buffer[at + n - i..at + n] == written;
      x := x / 256;
    }
  }

  function Flatten(parts: seq<seq<u8>>): seq<u8>
  {
    if parts == [] then [] else Flatten(parts[..|parts| - 1]) + parts[|parts| - 1]
  }

  /** The bytes before, and the next n. */
  lemma NextPart(m: seq<u8>, q: nat, n: nat)
    requires q + n <= |m|
    ensures m[..q + n] == m[..q] + m[q..q + n]
  {
  }

  lemma FlattenSnoc(parts: seq<seq<u8>>, i: nat)
    requires i < |parts|
    ensures Flatten(parts[..i + 1]) == Flatten(parts[..i]) + parts[i]
  {
    assert parts[..i + 1][..i] == parts[..i];
  }
}
