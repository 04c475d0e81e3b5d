/** core/vl_base32.c: Crockford base32. Text is a sequence of character codes; a C string ends at
    its first NUL. */
module Base32 {
  import opened Words
  import opened Wrappers
  import opened Digits
  import opened Modular
  import opened Bits
  import opened Numerals
  import opened ShiftRegister

  type quint = x: int | 0 <= x < 32

  const MAX_INPUT: nat := 1024
  const NUL: u8 := 0

  const ENC_ALPHA: seq<u8> := [
    48, 49, 50, 51, 52, 53, 54, 55, 56, 57, 65, 66, 67, 68, 69, 70,
    71, 72, 74, 75, 77, 78, 80, 81, 82, 83, 84, 86, 87, 88, 89, 90]

  const A2V: seq<int> := [
    10, 11, 12, 13, 14, 15, 16, 17, 1, 18, 19, 1, 20,
    21, 0, 22, 23, 24, 25, 26, -1, 27, 28, 29, 30, 31]

  /** The number of characters for n bytes. */
  function Chars(n: nat): nat
  {
    (8 * n + 4) / 5
  }

  predicate IsGrouping(c: int)
  {
    c == '-' as int || c == ' ' as int || c == '\t' as int || c == '\r' as int || c == '\n' as int
  }

  function Upper(c: int): int
  {
    if 'a' as int <= c <= 'z' as int then c - 32 else c
  }

  /** b32_val: a value, -2 for a grouping character, -1 for anything else. */
  function B32Val(c: u8): int
  {
    if IsGrouping(c) then -2
    else if '0' as int <= c <= '9' as int then c - '0' as int
    else
      var u := Upper(c);
      if 'A' as int <= u <= 'Z' as int then A2V[u - 'A' as int] else -1
  }

  /** The same, kept folded. */
  ghost function Val(c: u8): (v: int)
    ensures -2 <= v < 32
  {
    ValBy(Folds(), c)
  }

  ghost function ValBy(n: nat, c: u8): (v: int)
    ensures -2 <= v < 32
  {
    if n == 0 then B32Val(c) else ValBy(n - 1, c)
  }

  lemma {:induction false} UnfoldVal(n: nat, c: u8)
    ensures ValBy(n, c) == B32Val(c)
  {
    if n != 0 {
      UnfoldVal(n - 1, c);
    }
  }

  method ValueOf(c: u8) returns (v: int)
    ensures v == Val(c)
  {
    UnfoldVal(Folds(), c);
    v := B32Val(c);
  }

  // ------------------------------------------------------------- specification

  /** The canonical spelling of one significant character: upper case, aliases folded. */
  function Fold(c: u8): u8
  {
    var u := Upper(c);
    if u == 'I' as int || u == 'L' as int then '1' as int
    else if u == 'O' as int then '0' as int
    else u
  }

  /** The canonical spelling of a text: grouping dropped, every character folded. */
  function Canon(text: seq<u8>): (r: seq<u8>)
    ensures |r| <= |text|
  {
    if text == [] then []
    else
      var r, c := Canon(text[..|text| - 1]), text[|text| - 1];
      if IsGrouping(c) then r else r + [Fold(c)]
  }

  function Alpha(v: quint): u8
  {
    ENC_ALPHA[v]
  }

  function Spell(values: seq<quint>): (text: seq<u8>)
    ensures |text| == |values|
  {
    seq(|values|, k requires 0 <= k < |values| => Alpha(values[k]))
  }

  /** x with k zero bits shifted in. */
  function Shl(x: int, k: nat): int
    decreases k, x
  {
    if k == 0 then x else 2 * Shl(x, k - 1)
  }

  lemma {:induction false} ShlIs(x: int, k: nat)
    ensures Shl(x, k) == x * Pow(2, k)
    decreases k
  {
    if k != 0 {
      ShlIs(x, k - 1);
      var w := Pow(2, k - 1);
      assert x * (2 * w) == 2 * (x * w);
    }
  }

  /** The pad bits behind n bytes. */
  function Padding(n: nat): nat
  {
    5 * Chars(n) - 8 * n
  }

  /** The bytes as one number, the pad bits shifted in, written in base 32. */
  function EncodeValues(bytes: seq<u8>): (v: seq<quint>)
    ensures |v| == Chars(|bytes|)
  {
    Numeral(Shl(Big(bytes, 256), Padding(|bytes|)), 32, Chars(|bytes|))
  }

  function Encode(bytes: seq<u8>): (text: seq<u8>)
    ensures |text| == Chars(|bytes|)
  {
    Spell(EncodeValues(bytes))
  }

  ghost predicate Readable(text: seq<u8>)
  {
    forall k :: 0 <= k < |text| ==> Val(text[k]) != -1
  }

  /** The values of the significant characters. */
  ghost function Values(text: seq<u8>): (v: seq<quint>)
    ensures |v| <= |text|
  {
    if text == [] then []
    else
      var v, x := Values(text[..|text| - 1]), Val(text[|text| - 1]);
      if x >= 0 then v + [x] else v
  }

  /** Values as bytes, when the bits left over are zero. */
  function Regrouped(v: seq<quint>): (r: Option<seq<u8>>)
    ensures r.Some? ==> 8 * |r.value| <= 5 * |v| < 8 * |r.value| + 8
  {
    var n := Big(v, 32);
    var w := Pow(2, 5 * |v| % 8);
    PowPositive(2, 5 * |v| % 8);
    if n % w != 0 then None else Some(Numeral(n / w, 256, 5 * |v| / 8))
  }

  /** The same, kept folded. */
  ghost function FromValues(v: seq<quint>): (r: Option<seq<u8>>)
    ensures r.Some? ==> 8 * |r.value| <= 5 * |v| < 8 * |r.value| + 8
  {
    FromValuesBy(Folds(), v)
  }

  ghost function FromValuesBy(n: nat, v: seq<quint>): (r: Option<seq<u8>>)
    ensures r.Some? ==> 8 * |r.value| <= 5 * |v| < 8 * |r.value| + 8
  {
    if n == 0 then Regrouped(v) else FromValuesBy(n - 1, v)
  }

  lemma {:induction false} UnfoldFromValues(n: nat, v: seq<quint>)
    ensures FromValuesBy(n, v) == Regrouped(v)
  {
    if n != 0 {
      UnfoldFromValues(n - 1, v);
    }
  }

  /** What a text decodes to in a buffer of the given capacity; a count of 0 asks for whatever
      is there. */
  ghost function Decoded(text: seq<u8>, capacity: nat, count: nat): Option<seq<u8>>
  {
    if |text| > MAX_INPUT || !Readable(text) then None
    else Admitted(FromValues(Values(text)), |Values(text)|, capacity, count)
  }

  /** Bytes that fit, and are as many as asked for, in as many characters. */
  function Admitted(bytes: Option<seq<u8>>, chars: nat, capacity: nat, count: nat): Option<seq<u8>>
  {
    if bytes.None? || |bytes.value| > capacity then None
    else if count != 0 && (capacity < count || chars != Chars(count) || |bytes.value| != count) then None
    else bytes
  }

  /** The C string that starts a block of memory. */
  function CString(memory: seq<u8>): (text: seq<u8>)
    ensures |text| <= |memory| && text == memory[..|text|]
    ensures forall k :: 0 <= k < |text| ==> text[k] != NUL
    ensures |text| < |memory| ==> memory[|text|] == NUL
  {
    if memory == [] || memory[0] == NUL then []
    else [memory[0]] + CString(memory[1..])
  }

  // ------------------------------------------------------------------- codec

  /** One more character of output, taken from the top of the bits held. */
  lemma NextDigit(n: int, high: int, d: int, m: int)
    requires d > 0 && m > 0 && high == n / (m * d)
    ensures high * m + (n / d) % m == n / d
  {
    var q := n / d;
    assert q == (q / m) * m + q % m;
    Quotients(n, d, m);
  }

  lemma Quotients(n: int, d: int, m: int)
    requires d > 0 && m > 0
    ensures m * d > 0 && n / (m * d) == (n / d) / m
  {
    var q, r := n / d, n % d;
    var t, s := q / m, q % m;
    MulMono(1, m, d);
    MulMono(0, s, d);
    MulMono(s + 1, m, d);
    Distribute(1, s, 1, d);
    Join(n, d, q, r, m, t, s);
    DivUnique(m * d, n, t, s * d + r);
  }

  lemma Join(n: int, d: int, q: int, r: int, m: int, t: int, s: int)
    requires n == q * d + r && q == t * m + s
    ensures n == t * (m * d) + (s * d + r) && (s + 1) * d == s * d + d
  {
    Distribute(t, m, s, d);
    assert d * m == m * d;
  }

  /** Bits shifted in leave the ones above them alone. */
  lemma PushKeepsTop(n: int, v: int, d: int, k: int)
    requires k > 0 && d > 0 && 0 <= v < k
    ensures k * d > 0 && (n * k + v) / (k * d) == n / d
  {
    PushMod(n, v, k, d);
    var q, m := n / d, n % d;
    assert n == q * d + m;
    Distribute(q, d, m, k);
    MulMono(m + 1, d, k);
    assert (m + 1) * k == m * k + k;
    MulMono(0, m, k);
    DivUnique(k * d, n * k + v, q, m * k + v);
  }

  /** The digits written so far are the bits read so far, but for the lowest few. */
  ghost predicate Written(digits: seq<int>, base: int, n: int, bits: nat)
  {
    Pow(2, bits) != 0 && Big(digits, base) == n / Pow(2, bits)
  }

  lemma SpellSnoc(values: seq<quint>, v: quint)
    ensures Spell(values + [v]) == Spell(values) + [Alpha(v)]
  {
  }

  lemma ReadByte(buffer: u32, n: nat, byte: u8, values: seq<quint>, bits: nat)
    requires buffer == n % TWO_32 && Written(values, 32, n, bits)
    ensures Or(buffer * 256 % TWO_32, byte, WIDTH) == (n * 256 + byte) % TWO_32
    ensures Written(values, 32, n * 256 + byte, bits + 8)
  {
    assert Pow(2, 8) == 256;
    Push(buffer, n, byte, 8);
    PowPositive(2, bits);
    PushKeepsTop(n, byte, Pow(2, bits), 256);
    PowAdd(2, 8, bits);
  }

  lemma WriteValue(n: nat, values: seq<quint>, bits: nat, v: quint)
    requires Pow(2, bits) > 0 && v == (n / Pow(2, bits)) % 32 && Written(values, 32, n, bits + 5)
    ensures Written(values + [v], 32, n, bits)
  {
    PowAdd(2, 5, bits);
    assert Pow(2, 5) == 32;
    NextValue(n, values, Pow(2, bits), Pow(2, bits + 5));
  }

  lemma TakeFive(buffer: u32, n: nat, bits: nat)
    requires buffer == n % TWO_32 && bits + 5 <= WIDTH
    ensures Pow(2, bits) > 0
    ensures And(Shr(buffer, Pow(2, bits)), 0x1f, WIDTH) == (n / Pow(2, bits)) % 32
  {
    assert Pow(2, 5) == 32;
    Take(buffer, n, bits, 5);
  }

  lemma NextValue(n: int, values: seq<quint>, w: int, w32: int)
    requires w > 0 && w32 == 32 * w && Big(values, 32) == n / w32
    ensures Big(values + [(n / w) % 32], 32) == n / w
  {
    NextDigit(n, Big(values, 32), w, 32);
    BigSnoc(values, (n / w) % 32, 32);
  }

  /** The last few bits, padded with zeros. */
  lemma WritePadding(buffer: u32, n: nat, values: seq<quint>, bits: nat)
    requires buffer == n % TWO_32 && 0 < bits < 5 && Written(values, 32, n, bits)
    ensures Pow(2, 5 - bits) > 0
    ensures var v := And(buffer * Pow(2, 5 - bits) % TWO_32, 0x1f, WIDTH);
      0 <= v < 32 && Big(values + [v], 32) == n * Pow(2, 5 - bits)
  {
    var w := Pow(2, 5 - bits);
    PowPositive(2, 5 - bits);
    PowPositive(2, bits);
    PowAdd(2, 5 - bits, bits);
    assert Pow(2, 5) == 32;
    Push(buffer, n, 0, 5 - bits);
    MulMono(0, n, w);
    LowFive(buffer * w % TWO_32, n * w);
    LastValue(n, values, w, Pow(2, bits));
  }

  lemma LowFive(buffer: u32, n: nat)
    requires buffer == n % TWO_32
    ensures And(buffer, 0x1f, WIDTH) == n % 32
  {
    assert Pow(2, 0) == 1;
    TakeFive(buffer, n, 0);
  }

  lemma LastValue(n: nat, values: seq<quint>, w: int, d: int)
    requires w > 0 && d > 0 && w * d == 32 && Big(values, 32) == n / d
    ensures Big(values + [n * w % 32], 32) == n * w
  {
    PushKeepsTop(n, 0, d, w);
    var m := n * w;
    BigSnoc(values, m % 32, 32);
  }

  /** The values denote the bytes with the pad bits shifted in; kept folded. */
  ghost predicate Denote(values: seq<quint>, input: seq<u8>)
  {
    DenoteBy(Folds(), values, input)
  }

  ghost predicate DenoteBy(n: nat, values: seq<quint>, input: seq<u8>)
  {
    if n == 0 then Big(values, 32) == Shl(Big(input, 256), Padding(|input|)) else DenoteBy(n - 1, values, input)
  }

  lemma {:induction false} UnfoldDenote(n: nat, values: seq<quint>, input: seq<u8>)
    ensures DenoteBy(n, values, input) <==> Big(values, 32) == Shl(Big(input, 256), Padding(|input|))
  {
    if n != 0 {
      UnfoldDenote(n - 1, values, input);
    }
  }

  lemma EncodedIs(input: seq<u8>, values: seq<quint>)
    requires |values| == Chars(|input|) && Denote(values, input)
    ensures Spell(values) == Encode(input)
  {
    UnfoldDenote(Folds(), values, input);
    NumeralOfBig(values, 32);
  }

  /** Writes characters while there are five bits for one. */
  method WriteValues(out: array<u8>, start: nat, buffer: u32, held: nat, ghost n: nat, ghost before: seq<quint>)
      returns (outIdx: nat, bits: nat, ghost values: seq<quint>)
    requires buffer == n % TWO_32 && held < 13 && Written(before, 32, n, held) && |before| == start
    requires 5 * start + held <= 5 * out.Length && Spell(before) == out[..start]
    modifies out
    ensures bits < 5 && 5 * outIdx + bits == 5 * start + held && start <= outIdx <= out.Length
    ensures |values| == outIdx && Written(values, 32, n, bits)
    ensures out[..outIdx] == Spell(values) && forall k :: outIdx <= k < out.Length ==> out[k] == old(out[k])
  {
    outIdx, bits, values := start, held, before;
    while bits >= 5
      invariant bits < 13 && 5 * outIdx + bits == 5 * start + held && start <= outIdx
      invariant |values| == outIdx && Written(values, 32, n, bits)
      invariant out[..outIdx] == Spell(values) && forall k :: outIdx <= k < out.Length ==> out[k] == old(out[k])
    {
      bits := bits - 5;
      TakeFive(buffer, n, bits);
      var v: quint := And(Shr(buffer, Pow(2, bits)), 0x1f, WIDTH);
      WriteValue(n, values, bits, v);
      ghost var written := out[..outIdx];
      out[outIdx] := Alpha(v);
      assert out[..outIdx + 1] == written + [Alpha(v)];
      SpellSnoc(values, v);
      values := values + [v];
      outIdx := outIdx + 1;
    }
  }

  /** Takes the input in byte by byte; fewer than five bits are left over. */
  method WriteBytes(input: seq<u8>, out: array<u8>)
      returns (outIdx: nat, bits: nat, buffer: u32, ghost values: seq<quint>)
    requires out.Length >= Chars(|input|)
    modifies out
    ensures bits < 5 && 5 * outIdx + bits == 8 * |input| && |values| == outIdx <= out.Length
    ensures Big(input, 256) >= 0 && buffer == Big(input, 256) % TWO_32
    ensures Written(values, 32, Big(input, 256), bits)
    ensures out[..outIdx] == Spell(values) && forall k :: outIdx <= k < out.Length ==> out[k] == old(out[k])
  {
    outIdx, bits, buffer, values := 0, 0, 0, [];
    ghost var n: nat := 0;
    assert Pow(2, 0) == 1;
    for i := 0 to |input|
      invariant bits < 5 && 5 * outIdx + bits == 8 * i
      invariant n == Big(input[..i], 256) && buffer == n % TWO_32
      invariant |values| == outIdx && Written(values, 32, n, bits)
      invariant out[..outIdx] == Spell(values) && forall k :: outIdx <= k < out.Length ==> out[k] == old(out[k])
    {
      ReadByte(buffer, n, input[i], values, bits);
      buffer := Or(buffer * 256 % TWO_32, input[i], WIDTH);
      bits := bits + 8;
      BigSnoc(input[..i], input[i], 256);
      assert input[..i + 1] == input[..i] + [input[i]];
      n := n * 256 + input[i];
      outIdx, bits, values := WriteValues(out, outIdx, buffer, bits, n, values);
    }
    assert input[..|input|] == input;
  }

  /** Pads the bits left over to one more character. */
  method WriteRest(input: seq<u8>, out: array<u8>, start: nat, bits: nat, buffer: u32, ghost before: seq<quint>)
      returns (outIdx: nat)
    requires bits < 5 && 5 * start + bits == 8 * |input| && |before| == start && Chars(|input|) <= out.Length
    requires Big(input, 256) >= 0 && buffer == Big(input, 256) % TWO_32
    requires Written(before, 32, Big(input, 256), bits) && Spell(before) == out[..start]
    modifies out
    ensures outIdx == Chars(|input|)
    ensures out[..outIdx] == Encode(input) && forall k :: outIdx <= k < out.Length ==> out[k] == old(out[k])
  {
    outIdx := start;
    ghost var values := before;
    assert Pow(2, 0) == 1;
    if bits > 0 {
      WritePadding(buffer, Big(input, 256), before, bits);
      var v: quint := And(buffer * Pow(2, 5 - bits) % TWO_32, 0x1f, WIDTH);
      out[outIdx] := Alpha(v);
      assert out[..outIdx + 1] == Spell(before) + [Alpha(v)];
      SpellSnoc(before, v);
      values := before + [v];
      outIdx := outIdx + 1;
    }
    ShlIs(Big(input, 256), Padding(|input|));
    UnfoldDenote(Folds(), values, input);
    EncodedIs(input, values);
  }

  method EncodeText(input: seq<u8>, out: array<u8>) returns (rc: int)
    modifies out
    ensures rc == (if |input| > MAX_INPUT / 2 || out.Length < Chars(|input|) + 1 then -1 else Chars(|input|))
    ensures rc == -1 ==> out[..] == old(out[..])
    ensures rc >= 0 ==> out[..rc] == Encode(input) && out[rc] == NUL && forall k :: rc < k < out.Length ==> out[k] == old(out[k])
  {
    if |input| > MAX_INPUT / 2 || out.Length < Chars(|input|) + 1 {
      return -1;
    }
    var outIdx, bits, buffer, values := WriteBytes(input, out);
    outIdx := WriteRest(input, out, outIdx, bits, buffer, values);
    ghost var text := out[..outIdx];
    out[outIdx] := NUL;
    assert out[..outIdx] == text;
    rc := outIdx;
  }

  lemma ReadValue(buffer: u32, n: nat, v: quint, bytes: seq<u8>, bits: nat)
    requires buffer == n % TWO_32 && Written(bytes, 256, n, bits)
    ensures Or(buffer * 32 % TWO_32, v, WIDTH) == (n * 32 + v) % TWO_32
    ensures Written(bytes, 256, n * 32 + v, bits + 5)
  {
    assert Pow(2, 5) == 32;
    Push(buffer, n, v, 5);
    PowPositive(2, bits);
    PushKeepsTop(n, v, Pow(2, bits), 32);
    PowAdd(2, 5, bits);
  }

  lemma TakeByte(buffer: u32, n: nat, bits: nat)
    requires buffer == n % TWO_32 && bits + 8 <= WIDTH
    ensures Pow(2, bits) > 0
    ensures And(Shr(buffer, Pow(2, bits)), 0xff, WIDTH) == (n / Pow(2, bits)) % 256
  {
    assert Pow(2, 8) == 256;
    Take(buffer, n, bits, 8);
  }

  lemma WriteByte(n: nat, bytes: seq<u8>, bits: nat, b: u8)
    requires Pow(2, bits) > 0 && b == (n / Pow(2, bits)) % 256 && Written(bytes, 256, n, bits + 8)
    ensures Written(bytes + [b], 256, n, bits)
  {
    PowAdd(2, 8, bits);
    assert Pow(2, 8) == 256;
    NextByte(n, bytes, Pow(2, bits), Pow(2, bits + 8));
  }

  lemma NextByte(n: int, bytes: seq<u8>, w: int, w256: int)
    requires w > 0 && w256 == 256 * w && Big(bytes, 256) == n / w256
    ensures Big(bytes + [(n / w) % 256], 256) == n / w
  {
    NextDigit(n, Big(bytes, 256), w, 256);
    BigSnoc(bytes, (n / w) % 256, 256);
  }

  lemma LeftOver(buffer: u32, n: nat, bits: nat)
    requires buffer == n % TWO_32 && bits < 8
    ensures Pow(2, bits) > 0 && And(buffer, Pow(2, bits) - 1, WIDTH) == n % Pow(2, bits)
    ensures bits == 0 ==> And(buffer, Pow(2, bits) - 1, WIDTH) == 0
  {
    assert Pow(2, 0) == 1;
    Take(buffer, n, 0, bits);
  }

  lemma ValuesSnoc(text: seq<u8>, i: nat)
    requires i < |text|
    ensures Values(text[..i + 1])
         == if Val(text[i]) >= 0 then Values(text[..i]) + [Val(text[i])] else Values(text[..i])
  {
    assert text[..i + 1][..i] == text[..i];
  }

  lemma {:induction false} ValuesPrefix(text: seq<u8>, i: nat)
    requires i <= |text|
    ensures |Values(text[..i])| <= |Values(text)|
    decreases |text| - i
  {
    if i < |text| {
      ValuesSnoc(text, i);
      ValuesPrefix(text, i + 1);
    } else {
      assert text[..i] == text;
    }
  }

  /** The buffer and the output after i characters. */
  ghost predicate Reading(text: seq<u8>, i: nat, buffer: u32, bits: nat, bytes: seq<u8>)
  {
    && i <= |text| && Readable(text[..i])
    && bits < 8 && 8 * |bytes| + bits == 5 * |Values(text[..i])|
    && Big(Values(text[..i]), 32) >= 0 && buffer == Big(Values(text[..i]), 32) % TWO_32
    && Written(bytes, 256, Big(Values(text[..i]), 32), bits)
  }

  lemma ReadableSnoc(text: seq<u8>, i: nat)
    requires i < |text|
    ensures Readable(text[..i + 1]) <==> Readable(text[..i]) && Val(text[i]) != -1
  {
    assert text[..i + 1] == text[..i] + [text[i]];
    assert forall k :: 0 <= k < i ==> text[..i + 1][k] == text[..i][k];
  }

  lemma SkipCharacter(text: seq<u8>, i: nat, buffer: u32, bits: nat, bytes: seq<u8>)
    requires i < |text| && Val(text[i]) == -2 && Reading(text, i, buffer, bits, bytes)
    ensures Reading(text, i + 1, buffer, bits, bytes)
    ensures Values(text[..i + 1]) == Values(text[..i])
  {
    ReadableSnoc(text, i);
    ValuesSnoc(text, i);
  }

  /** A significant character: five more bits, and a byte once there are eight. */
  lemma ReadCharacter(text: seq<u8>, i: nat, buffer: u32, bits: nat, bytes: seq<u8>)
    requires i < |text| && Val(text[i]) >= 0 && Reading(text, i, buffer, bits, bytes)
    ensures var v := Val(text[i]); var after := Or(buffer * 32 % TWO_32, v, WIDTH);
      && 0 <= after < TWO_32
      && Values(text[..i + 1]) == Values(text[..i]) + [v]
      && (bits + 5 < 8 ==> Reading(text, i + 1, after, bits + 5, bytes))
      && (bits + 5 >= 8 ==>
            && Pow(2, bits - 3) > 0
            && var b := And(Shr(after, Pow(2, bits - 3)), 0xff, WIDTH);
               0 <= b < 256 && Reading(text, i + 1, after, bits - 3, bytes + [b]))
  {
    var v, n := Val(text[i]), Big(Values(text[..i]), 32);
    ReadableSnoc(text, i);
    ValuesSnoc(text, i);
    BigSnoc(Values(text[..i]), v, 32);
    ReadValue(buffer, n, v, bytes, bits);
    var after, m := Or(buffer * 32 % TWO_32, v, WIDTH), n * 32 + v;
    if bits + 5 >= 8 {
      TakeByte(after, m, bits - 3);
      WriteByte(m, bytes, bits - 3, And(Shr(after, Pow(2, bits - 3)), 0xff, WIDTH));
    }
  }

  /** More output than the buffer holds. */
  lemma TooLong(text: seq<u8>, i: nat, capacity: nat, count: nat)
    requires i < |text| && Val(text[i]) >= 0
    requires 5 * (|Values(text[..i])| + 1) >= 8 * (capacity + 1)
    ensures Decoded(text, capacity, count).None?
  {
    ValuesSnoc(text, i);
    ValuesPrefix(text, i + 1);
  }

  lemma BytesOfValues(v: seq<quint>, bytes: seq<u8>, bits: nat)
    requires bits < 8 && 8 * |bytes| + bits == 5 * |v| && Written(bytes, 256, Big(v, 32), bits)
    ensures FromValues(v) == if Big(v, 32) % Pow(2, bits) != 0 then None else Some(bytes)
  {
    UnfoldFromValues(Folds(), v);
    DivUnique(8, 5 * |v|, |bytes|, bits);
    NumeralOfBig(bytes, 256);
  }

  /** The end of the text: the bytes written are the bytes denoted, if nothing is left over. */
  lemma ReadingEnds(text: seq<u8>, buffer: u32, bits: nat, bytes: seq<u8>)
    requires Reading(text, |text|, buffer, bits, bytes)
    ensures Readable(text) && Pow(2, bits) > 0
    ensures FromValues(Values(text)) == if bits > 0 && And(buffer, Pow(2, bits) - 1, WIDTH) != 0 then None else Some(bytes)
  {
    assert text[..|text|] == text;
    LeftOver(buffer, Big(Values(text), 32), bits);
    BytesOfValues(Values(text), bytes, bits);
  }

  /** Takes five bits in, and writes a byte once there are eight. */
  method TakeCharacter(out: array<u8>, buffer0: u32, bits0: nat, outIdx0: nat, v: quint,
                       ghost text: seq<u8>, ghost i: nat, ghost count: nat)
      returns (ok: bool, buffer: u32, bits: nat, outIdx: nat)
    requires outIdx0 <= out.Length && i < |text| && v == Val(text[i])
    requires Reading(text, i, buffer0, bits0, out[..outIdx0])
    modifies out
    ensures outIdx0 <= outIdx <= out.Length && forall k :: outIdx <= k < out.Length ==> out[k] == old(out[k])
    ensures ok ==> Reading(text, i + 1, buffer, bits, out[..outIdx])
    ensures ok ==> |Values(text[..i + 1])| == |Values(text[..i])| + 1
    ensures !ok ==> Decoded(text, out.Length, count).None?
  {
    ghost var bytes := out[..outIdx0];
    ReadCharacter(text, i, buffer0, bits0, bytes);
    buffer := Or(buffer0 * 32 % TWO_32, v, WIDTH);
    bits, outIdx, ok := bits0 + 5, outIdx0, true;
    if bits >= 8 {
      bits := bits - 8;
      if outIdx >= out.Length {
        TooLong(text, i, out.Length, count);
        return false, buffer, bits, outIdx;
      }
      out[outIdx] := And(Shr(buffer, Pow(2, bits)), 0xff, WIDTH);
      outIdx := outIdx + 1;
      assert out[..outIdx] == bytes + [out[outIdx - 1]];
    }
  }

  /** One character: nothing, five bits, or a failure. */
  method ScanOne(out: array<u8>, c: u8, buffer0: u32, bits0: nat, outIdx0: nat, chars0: nat,
                 ghost text: seq<u8>, ghost i: nat, ghost count: nat)
      returns (ok: bool, buffer: u32, bits: nat, outIdx: nat, chars: nat)
    requires outIdx0 <= out.Length && i < |text| && c == text[i] && chars0 == |Values(text[..i])|
    requires Reading(text, i, buffer0, bits0, out[..outIdx0])
    modifies out
    ensures outIdx0 <= outIdx <= out.Length && forall k :: outIdx <= k < out.Length ==> out[k] == old(out[k])
    ensures ok ==> Reading(text, i + 1, buffer, bits, out[..outIdx]) && chars == |Values(text[..i + 1])|
    ensures !ok ==> Decoded(text, out.Length, count).None?
  {
    ok, buffer, bits, outIdx, chars := true, buffer0, bits0, outIdx0, chars0;
    var v := ValueOf(c);
    if v == -2 {
      SkipCharacter(text, i, buffer, bits, out[..outIdx]);
      return;
    }
    if v < 0 {
      ok := false;
      return;
    }
    ok, buffer, bits, outIdx := TakeCharacter(out, buffer, bits, outIdx, v, text, i, count);
    chars := chars + 1;
  }

  /** Scans the text up to its end; reports failure on a character out of the alphabet, a text
      too long, and output past the capacity. */
  method Scan(memory: seq<u8>, out: array<u8>, ghost count: nat)
      returns (ok: bool, buffer: u32, bits: nat, outIdx: nat, chars: nat)
    requires |CString(memory)| < |memory| || |memory| > MAX_INPUT
    modifies out
    ensures outIdx <= out.Length && forall k :: outIdx <= k < out.Length ==> out[k] == old(out[k])
    ensures ok ==> |CString(memory)| <= MAX_INPUT && chars == |Values(CString(memory))|
    ensures ok ==> Reading(CString(memory), |CString(memory)|, buffer, bits, out[..outIdx])
    ensures !ok ==> Decoded(CString(memory), out.Length, count).None?
  {
    ok, buffer, bits, outIdx, chars := true, 0, 0, 0, 0;
    var scanned := 0;
    ghost var text := CString(memory);
    assert text[..0] == [] && out[..0] == [] && Pow(2, 0) == 1;
    while memory[scanned] != NUL
      invariant scanned <= |text| && scanned <= MAX_INPUT && outIdx <= out.Length
      invariant Reading(text, scanned, buffer, bits, out[..outIdx]) && chars == |Values(text[..scanned])|
      invariant forall k :: outIdx <= k < out.Length ==> out[k] == old(out[k])
      decreases |text| - scanned
    {
      if scanned >= MAX_INPUT {
        return false, buffer, bits, outIdx, chars;
      }
      ok, buffer, bits, outIdx, chars := ScanOne(out, memory[scanned], buffer, bits, outIdx, chars, text, scanned, count);
      if !ok {
        return;
      }
      scanned := scanned + 1;
    }
    assert text[..scanned] == text;
  }

  /** The expected count of characters, computed in 64 bits, only ever matches a count that
      does not wrap. */
  lemma CountFits(count: nat, chars: nat, bytes: nat)
    requires chars <= MAX_INPUT && 8 * bytes <= 5 * chars
    ensures bytes == count ==> ((count * 8 + 4) % TWO_64) / 5 == Chars(count)
  {
    if bytes == count {
      SmallMod(count * 8 + 4, TWO_64);
    }
  }

  lemma DecodedIs(text: seq<u8>, buffer: u32, bits: nat, bytes: seq<u8>, capacity: nat, count: nat)
    requires Reading(text, |text|, buffer, bits, bytes) && |bytes| <= capacity && |text| <= MAX_INPUT
    ensures Pow(2, bits) > 0
    ensures Decoded(text, capacity, count) ==
      if bits > 0 && And(buffer, Pow(2, bits) - 1, WIDTH) != 0 then None
      else Admitted(Some(bytes), |Values(text)|, capacity, count)
  {
    ReadingEnds(text, buffer, bits, bytes);
    assert text[..|text|] == text;
  }

  method DecodeText(memory: seq<u8>, out: array<u8>, count: nat) returns (rc: int)
    requires |CString(memory)| < |memory| || |memory| > MAX_INPUT
    requires count < TWO_64
    modifies out
    ensures rc == -1 <==> Decoded(CString(memory), out.Length, count).None?
    ensures rc != -1 ==>
      && 0 <= rc <= out.Length
      && Decoded(CString(memory), out.Length, count) == Some(out[..rc])
      && out[rc..] == old(out[rc..])
  {
    if count != 0 && out.Length < count {
      return -1;
    }
    var ok, buffer, bits, outIdx, chars := Scan(memory, out, count);
    if !ok {
      return -1;
    }
    assert CString(memory)[..|CString(memory)|] == CString(memory);
    DecodedIs(CString(memory), buffer, bits, out[..outIdx], out.Length, count);
    CountFits(count, chars, outIdx);
    if bits > 0 && And(buffer, Pow(2, bits) - 1, WIDTH) != 0 {
      return -1;
    }
    if count != 0 {
      if chars != ((count * 8 + 4) % TWO_64) / 5 {
        return -1;
      }
      if outIdx != count {
        return -1;
      }
    }
    rc := outIdx;
  }
}
