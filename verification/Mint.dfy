/** tools/vl_mint.py: the vendor's side of the format, with a base32 codec of its own that works on
    strings of bits. Text is ASCII. */
module Mint {
  import opened Words
  import opened Wrappers
  import opened Digits
  import opened Modular
  import opened Numerals
  import opened Bits
  import opened Base32
  import Base32Laws

  // ------------------------------------------------------------------ encoding

  /** Every number as a string of k bits, one after the other. */
  function BitString(numbers: seq<int>, k: nat): (bits: seq<int>)
    ensures |bits| == k * |numbers|
    ensures forall i :: 0 <= i < |bits| ==> 0 <= bits[i] < 2
  {
    if numbers == [] then []
    else
      Enlarge(k, |numbers|);
      BitString(numbers[..|numbers| - 1], k) + Numeral(numbers[|numbers| - 1], 2, k)
  }

  lemma Enlarge(k: nat, n: nat)
    requires n > 0
    ensures k * n == k * (n - 1) + k
  {
  }

  function ZeroBits(n: nat): (z: seq<int>)
    ensures |z| == n
  {
    seq(n, _ => 0)
  }

  /** int(bits[i:i + k], 2), for every k-th i */
  function Groups(bits: seq<int>, k: nat, n: nat): (g: seq<int>)
    requires k * n <= |bits| && forall i :: 0 <= i < |bits| ==> 0 <= bits[i] < 2
    ensures |g| == n
    ensures forall i :: 0 <= i < n ==> 0 <= g[i] < Pow(2, k)
    ensures forall i :: 0 <= i < n ==> 0 <= k * i <= k * i + k <= |bits| && g[i] == Big(bits[k * i..k * i + k], 2)
    decreases n
  {
    if n == 0 then []
    else
      Enlarge(k, n);
      BigBounds(bits[k * (n - 1)..k * (n - 1) + k], 2);
      Groups(bits, k, n - 1) + [Big(bits[k * (n - 1)..k * (n - 1) + k], 2)]
  }

  lemma FivePower()
    ensures Pow(2, 5) == 32 && Pow(2, 8) == 256
  {
  }

  lemma {:induction false} ZeroBitsValue(n: nat)
    ensures Big(ZeroBits(n), 2) == 0
  {
    if n != 0 {
      ZeroBitsValue(n - 1);
      assert ZeroBits(n) == ZeroBits(n - 1) + [0];
      BigSnoc(ZeroBits(n - 1), 0, 2);
    }
  }

  /** The bits of some digits denote the same number as the digits. */
  lemma {:induction false} BitStringValue(numbers: seq<int>, k: nat)
    requires Below(numbers, Pow(2, k))
    ensures Big(BitString(numbers, k), 2) == Big(numbers, Pow(2, k))
    decreases |numbers|
  {
    if numbers != [] {
      var u, d := numbers[..|numbers| - 1], numbers[|numbers| - 1];
      BitStringValue(u, k);
      BigAppend(BitString(u, k), Numeral(d, 2, k), 2);
      BigOfNumeral(d, 2, k);
    }
  }

  /** Cutting a string of bits into groups and reading each keeps the number. */
  lemma GroupsValue(bits: seq<int>, k: nat, n: nat)
    requires |bits| == k * n && forall i :: 0 <= i < |bits| ==> 0 <= bits[i] < 2
    ensures Big(Groups(bits, k, n), Pow(2, k)) == Big(bits, 2)
  {
    Regroup(bits, Groups(bits, k, n), 2, k);
  }

  lemma PaddingIs(n: nat)
    ensures -(8 * n) % 5 == Padding(n) && 8 * n + Padding(n) == 5 * Chars(n)
  {
    DivUnique(5, -(8 * n), -(Chars(n) as int), Padding(n));
  }

  function Padded(data: seq<u8>): (bits: seq<int>)
    ensures |bits| == 5 * Chars(|data|)
    ensures forall i :: 0 <= i < |bits| ==> 0 <= bits[i] < 2
  {
    PaddingIs(|data|);
    BitString(data, 8) + ZeroBits(-(8 * |data|) % 5)
  }

  lemma PaddedValue(data: seq<u8>)
    ensures Big(Padded(data), 2) == Big(data, 256) * Pow(2, Padding(|data|))
  {
    PaddingIs(|data|);
    FivePower();
    BitStringValue(data, 8);
    BigAppend(BitString(data, 8), ZeroBits(Padding(|data|)), 2);
    ZeroBitsValue(Padding(|data|));
  }

  /** b32 */
  function B32(data: seq<u8>): seq<u8>
  {
    FivePower();
    Spell(Groups(Padded(data), 5, |Padded(data)| / 5))
  }

  /** The two encoders agree on every input. */
  lemma EncodersAgree(data: seq<u8>)
    ensures B32(data) == Encode(data)
  {
    FivePower();
    PaddedValue(data);
    GroupsValue(Padded(data), 5, Chars(|data|));
    var values := Groups(Padded(data), 5, Chars(|data|));
    ShlIs(Big(data, 256), Padding(|data|));
    UnfoldDenote(Folds(), values, data);
    EncodedIs(data, values);
  }

  // ------------------------------------------------------------------ bit order

  lemma {:induction false} NumeralBit(x: int, n: nat, k: nat)
    requires k < n
    ensures Numeral(x, 2, n)[k] == BitOf(x, n - 1 - k)
    decreases n
  {
    if k < n - 1 {
      NumeralBit(x / 2, n - 1, k);
    }
  }

  lemma {:induction false} BitStringAt(numbers: seq<int>, w: nat, i: nat, k: nat)
    requires i < |numbers| && k < w
    ensures 0 <= w * i + k < w * |numbers|
    ensures BitString(numbers, w)[w * i + k] == BitOf(numbers[i], w - 1 - k)
    decreases |numbers|
  {
    Enlarge(w, |numbers|);
    MulMono(i, |numbers| - 1, w);
    if i < |numbers| - 1 {
      BitStringAt(numbers[..|numbers| - 1], w, i, k);
    } else {
      NumeralBit(numbers[i], w, k);
    }
  }

  /** Bit p of the bytes, from the top of the first one on; zero past their end. */
  function BitAt(bytes: seq<u8>, p: nat): int
  {
    if p < 8 * |bytes| then BitOf(bytes[p / 8], 7 - p % 8) else 0
  }

  lemma PaddedAt(bytes: seq<u8>, p: nat)
    requires p < 5 * Chars(|bytes|)
    ensures Padded(bytes)[p] == BitAt(bytes, p)
  {
    PaddingIs(|bytes|);
    if p < 8 * |bytes| {
      BitStringAt(bytes, 8, p / 8, p % 8);
    }
  }

  lemma GroupBit(bits: seq<int>, j: nat, k: nat, value: int)
    requires 5 * j + 5 <= |bits| && Below(bits, 2) && k < 5 && value == Big(bits[5 * j..5 * j + 5], 2)
    ensures BitOf(value, 4 - k) == bits[5 * j + k]
  {
    var part := bits[5 * j..5 * j + 5];
    NumeralOfBig(part, 2);
    NumeralBit(value, 5, k);
  }

  /** The values are the groups of five bits. */
  lemma ValuesAreGroups(bytes: seq<u8>)
    ensures Groups(Padded(bytes), 5, Chars(|bytes|)) == EncodeValues(bytes)
  {
    FivePower();
    EncodersAgree(bytes);
    Base32Laws.SpellInjective(Groups(Padded(bytes), 5, Chars(|bytes|)), EncodeValues(bytes));
  }

  lemma ValueBit(bytes: seq<u8>, j: nat, k: nat)
    requires j < Chars(|bytes|) && k < 5
    ensures BitOf(EncodeValues(bytes)[j], 4 - k) == BitAt(bytes, 5 * j + k)
  {
    ValuesAreGroups(bytes);
    GroupBit(Padded(bytes), j, k, EncodeValues(bytes)[j]);
    PaddedAt(bytes, 5 * j + k);
  }

  /** The characters of an encoding read as the bits of the bytes, from the top of the first byte
      on, five at a time from the top of each value, with zeros after the last. */
  lemma EncodedBits(bytes: seq<u8>, j: nat, k: nat)
    requires j < Chars(|bytes|) && k < 5
    ensures Val(Encode(bytes)[j]) >= 0
    ensures BitOf(Val(Encode(bytes)[j]), 4 - k) == BitAt(bytes, 5 * j + k)
  {
    ValueBit(bytes, j, k);
    Base32Laws.AlphaReads(EncodeValues(bytes)[j]);
  }

  // ------------------------------------------------------------------ decoding

  /** ALPHA.index, from position k on; -1 for a character that is not there. */
  function Index(c: int, k: nat): (i: int)
    ensures -1 <= i < 32
    decreases 32 - k, c
  {
    if k >= 32 then -1 else if Alpha(k) == c then k else Index(c, k + 1)
  }

  lemma {:induction false} IndexFound(c: int, k: nat)
    ensures Index(c, k) >= 0 ==> Alpha(Index(c, k)) == c
    decreases 32 - k
  {
    if k < 32 {
      IndexFound(c, k + 1);
    }
  }

  lemma {:induction false} IndexOfAlpha(v: quint, k: nat)
    requires k <= v
    ensures Index(Alpha(v), k) == v
    decreases v - k
  {
    if k < v {
      Base32Laws.AlphaReads(v);
      Base32Laws.AlphaReads(k);
      IndexOfAlpha(v, k + 1);
    }
  }

  /** A strict decoder's answer: all characters significant or grouping, as many as the bytes
      asked for need, and zero pad bits. */
  ghost function Strict(text: seq<u8>, count: nat): Option<seq<u8>>
  {
    if Readable(text) && |Values(text)| == Chars(count) then FromValues(Values(text)) else None
  }

  /** The characters without grouping, upper case, aliases replaced; None if one is not in the
      alphabet. */
  method Clean(text: seq<u8>) returns (cleaned: Option<seq<u8>>)
    ensures cleaned.Some? <==> Readable(text)
    ensures cleaned.Some? ==> cleaned.value == Spell(Values(text))
  {
    var kept: seq<u8> := [];
    ghost var values: seq<quint> := [];
    for i := 0 to |text|
      invariant kept == Canon(text[..i]) == Spell(values)
    {
      if IsGrouping(text[i]) {
        Base32Laws.CanonSnoc(text, i);
      } else {
        var c := Fold(text[i]);
        if Index(c, 0) < 0 {
          Unreadable(text, i);
          return None;
        }
        KeepCharacter(text, i, values, c);
        values := values + [Index(c, 0)];
        kept := kept + [c];
      }
    }
    Base32Laws.SpelledReads(text, |text|, values);
    assert text[..|text|] == text;
    cleaned := Some(kept);
  }

  lemma SpellIndex(values: seq<quint>, c: u8)
    requires Index(c, 0) >= 0
    ensures Spell(values + [Index(c, 0)]) == Spell(values) + [c]
  {
    IndexFound(c, 0);
    SpellSnoc(values, Index(c, 0));
  }

  lemma KeepCharacter(text: seq<u8>, i: nat, values: seq<quint>, c: u8)
    requires i < |text| && !IsGrouping(text[i]) && c == Fold(text[i]) && Index(c, 0) >= 0
    requires Canon(text[..i]) == Spell(values)
    ensures Canon(text[..i + 1]) == Canon(text[..i]) + [c] == Spell(values + [Index(c, 0)])
  {
    Base32Laws.CanonSnoc(text, i);
    SpellIndex(values, c);
  }

  lemma Unreadable(text: seq<u8>, i: nat)
    requires i < |text| && !IsGrouping(text[i]) && Index(Fold(text[i]), 0) < 0
    ensures !Readable(text)
  {
    Base32Laws.FoldSpells(text[i]);
    if Val(text[i]) >= 0 {
      IndexOfAlpha(Val(text[i]), 0);
    }
  }

  function Indices(cleaned: seq<u8>): (v: seq<int>)
    ensures |v| == |cleaned|
  {
    seq(|cleaned|, i requires 0 <= i < |cleaned| => Index(cleaned[i], 0))
  }

  lemma IndicesOfSpelled(v: seq<quint>)
    ensures Indices(Spell(v)) == v
  {
    forall i | 0 <= i < |v|
      ensures Index(Spell(v)[i], 0) == v[i]
    {
      IndexOfAlpha(v[i], 0);
    }
  }

  lemma {:induction false} ZeroWhen(bits: seq<int>)
    requires Below(bits, 2)
    ensures Big(bits, 2) == 0 <==> forall i :: 0 <= i < |bits| ==> bits[i] == 0
    decreases |bits|
  {
    if bits != [] {
      var u := bits[..|bits| - 1];
      ZeroWhen(u);
      BigBounds(u, 2);
      assert forall i :: 0 <= i < |u| ==> u[i] == bits[i];
    }
  }

  /** The bytes at the front of a string of bits, when the rest are zero. */
  lemma FrontBytes(v: seq<quint>, count: nat, bits: seq<int>)
    requires |v| == Chars(count) && bits == BitString(v, 5)
    ensures 8 * count <= |bits|
    ensures FromValues(v)
         == if forall i :: 8 * count <= i < |bits| ==> bits[i] == 0 then Some(Groups(bits, 8, count)) else None
  {
    FivePower();
    PaddingIs(count);
    FrontValue(v, count, bits);
    var bytes, tail, w := Groups(bits, 8, count), Big(bits[8 * count..], 2), Pow(2, Padding(count));
    DivUnique(w, Big(v, 32), Big(bytes, 256), tail);
    BytesOfValues(v, bytes, Padding(count));
    TailIsZero(bits, 8 * count);
  }

  lemma FrontValue(v: seq<quint>, count: nat, bits: seq<int>)
    requires |v| == Chars(count) && bits == BitString(v, 5)
    ensures 8 * count <= |bits|
    ensures Big(v, 32) == Big(Groups(bits, 8, count), 256) * Pow(2, Padding(count)) + Big(bits[8 * count..], 2)
    ensures 0 <= Big(bits[8 * count..], 2) < Pow(2, Padding(count))
  {
    FivePower();
    PaddingIs(count);
    var head, tail := bits[..8 * count], bits[8 * count..];
    assert bits == head + tail;
    BigAppend(head, tail, 2);
    BitStringValue(v, 5);
    GroupsOfHead(bits, head, 8, count);
    GroupsValue(head, 8, count);
    BigBounds(tail, 2);
  }

  lemma TailIsZero(bits: seq<int>, n: nat)
    requires n <= |bits| && Below(bits, 2)
    ensures Big(bits[n..], 2) == 0 <==> forall i :: n <= i < |bits| ==> bits[i] == 0
  {
    var tail := bits[n..];
    ZeroWhen(tail);
    assert forall i :: n <= i < |bits| ==> bits[i] == tail[i - n];
  }

  /** Groups read only the bits that they cover. */
  lemma {:induction false} GroupsOfHead(bits: seq<int>, head: seq<int>, k: nat, n: nat)
    requires k * n <= |head| <= |bits| && head == bits[..|head|] && Below(bits, 2)
    ensures Below(head, 2) && Groups(bits, k, n) == Groups(head, k, n)
    decreases n
  {
    HeadIsBelow(bits, head);
    if n != 0 {
      Enlarge(k, n);
      GroupsOfHead(bits, head, k, n - 1);
      SameSlice(bits, head, k * (n - 1), k);
    }
  }

  lemma HeadIsBelow(bits: seq<int>, head: seq<int>)
    requires |head| <= |bits| && head == bits[..|head|] && Below(bits, 2)
    ensures Below(head, 2)
  {
    assert forall i :: 0 <= i < |head| ==> head[i] == bits[i];
  }

  lemma SameSlice(bits: seq<int>, head: seq<int>, i: nat, k: nat)
    requires i + k <= |head| <= |bits| && head == bits[..|head|]
    ensures bits[i..i + k] == head[i..i + k]
  {
  }

  /** b32_decode; None for a ValueError. */
  method B32Decode(text: seq<u8>, count: nat) returns (bytes: Option<seq<u8>>)
    ensures bytes == Strict(text, count)
  {
    var cleaned := Clean(text);
    if cleaned.None? {
      return None;
    }
    if |cleaned.value| != Chars(count) {
      return None;
    }
    IndicesOfSpelled(Values(text));
    var bits := BitString(Indices(cleaned.value), 5);
    FrontBytes(Values(text), count, bits);
    var out := Groups(bits, 8, count);
    for i := 8 * count to |bits|
      invariant forall j :: 8 * count <= j < i ==> bits[j] == 0
    {
      if bits[i] != 0 {
        return None;
      }
    }
    bytes := Some(out);
  }

  /** The two decoders agree on every text of at most 1024 characters; on longer ones the device's
      refuses. */
  lemma DecodersAgree(text: seq<u8>, capacity: nat, count: nat)
    requires 0 < count <= capacity
    ensures Decoded(text, capacity, count) == if |text| <= MAX_INPUT then Strict(text, count) else None
  {
    if Readable(text) && |Values(text)| == Chars(count) && FromValues(Values(text)).Some? {
      var b := FromValues(Values(text)).value;
      assert 5 * Chars(count) / 8 == count;
    }
  }
}
