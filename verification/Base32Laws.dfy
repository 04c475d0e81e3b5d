/** What the base32 codec promises: the decoded bytes are canonical, although the text is not. */
module Base32Laws {
  import opened Words
  import opened Wrappers
  import opened Digits
  import opened Modular
  import opened Numerals
  import opened Base32

  // ---------------------------------------------------------------- characters

  /** A significant character spells its value once it is folded. */
  lemma FoldSpells(c: u8)
    ensures IsGrouping(c) <==> Val(c) == -2
    ensures Val(c) >= 0 ==> Fold(c) == Alpha(Val(c))
  {
    UnfoldVal(Folds(), c);
    if 'A' as int <= Upper(c) <= 'Z' as int {
      LetterSpells(c, Upper(c));
    } else if '0' as int <= c <= '9' as int {
      AlphaIsFolded(c - '0' as int);
    }
  }

  lemma LetterSpells(c: u8, u: int)
    requires u == Upper(c) && 'A' as int <= u <= 'Z' as int
    ensures A2V[u - 'A' as int] >= -1
    ensures A2V[u - 'A' as int] >= 0 ==> Fold(c) == Alpha(A2V[u - 'A' as int])
  {
  }

  /** The canonical spelling of a value reads as that value, and stays as it is. */
  lemma AlphaReads(v: quint)
    ensures Val(Alpha(v)) == v && !IsGrouping(Alpha(v)) && Fold(Alpha(v)) == Alpha(v)
  {
    UnfoldVal(Folds(), Alpha(v));
    AlphaIsFolded(v);
    if v >= 10 {
      LetterReads(v, Alpha(v));
    }
  }

  lemma AlphaIsFolded(v: quint)
    ensures v < 10 ==> Alpha(v) == v + '0' as int
    ensures v >= 10 ==> 'A' as int <= Alpha(v) <= 'Z' as int
    ensures Fold(Alpha(v)) == Alpha(v)
  {
  }

  lemma LetterReads(v: quint, u: int)
    requires v >= 10 && u == Alpha(v) && 'A' as int <= u <= 'Z' as int
    ensures A2V[u - 'A' as int] == v
  {
  }

  /** What folds to the spelling of a value reads as that value. */
  lemma FoldReads(c: u8, v: quint)
    requires !IsGrouping(c) && Fold(c) == Alpha(v)
    ensures Val(c) == v
  {
    AlphaReads(v);
    UnfoldVal(Folds(), c);
    UnfoldVal(Folds(), Fold(c));
  }

  /** Where each run of characters starts. */
  lemma AlphaAt(v: quint)
    ensures Alpha(v) == v + (if v < 10 then 48 else if v < 18 then 55 else if v < 20 then 56
                             else if v < 22 then 57 else if v < 27 then 58 else 59)
  {
  }

  /** The characters of Crockford's alphabet: '0' to '9', and 'A' to 'Z' without I, L, O and U. */
  predicate IsCrockford(c: u8)
  {
    48 <= c <= 57 || (65 <= c <= 90 && c != 73 && c != 76 && c != 79 && c != 85)
  }

  /** The alphabet is those characters, in the order of their codes. */
  lemma AlphabetIs()
    ensures forall v: quint, w: quint :: v < w ==> Alpha(v) < Alpha(w)
    ensures forall c: u8 :: IsCrockford(c) <==> exists v: quint :: Alpha(v) == c
  {
    forall v: quint, w: quint | v < w
      ensures Alpha(v) < Alpha(w)
    {
      AlphaAt(v);
      AlphaAt(w);
    }
    forall c: u8
      ensures IsCrockford(c) <==> exists v: quint :: Alpha(v) == c
    {
      if IsCrockford(c) {
        var v := Position(c);
      } else if v: quint :| Alpha(v) == c {
        AlphaAt(v);
        assert false;
      }
    }
  }

  lemma Position(c: u8) returns (v: quint)
    requires IsCrockford(c)
    ensures Alpha(v) == c
  {
    v := c - (if c < 58 then 48 else if c < 73 then 55 else if c < 76 then 56
              else if c < 79 then 57 else if c < 85 then 58 else 59);
    AlphaAt(v);
  }

  /** What the decoder reads, by character code: grouping is the hyphen, the space, the tab, the
      carriage return and the line feed; a value is a digit or a letter of either case other than
      U; I and L read as 1, O as 0, and any other as its place in the alphabet. */
  lemma ReadingIs(c: u8)
    ensures Val(c) == -2 <==> c == 45 || c == 32 || c == 9 || c == 13 || c == 10
    ensures Val(c) >= 0 <==> 48 <= c <= 57 || ((65 <= c <= 90 || 97 <= c <= 122) && c != 85 && c != 117)
    ensures c == 73 || c == 105 || c == 76 || c == 108 ==> Val(c) == 1
    ensures c == 79 || c == 111 ==> Val(c) == 0
    ensures IsCrockford(c) ==> Val(c) >= 0 && Alpha(Val(c)) == c
    ensures 97 <= c <= 122 && IsCrockford(c - 32) ==> Val(c) >= 0 && Alpha(Val(c)) == c - 32
  {
    UnfoldVal(Folds(), c);
    if IsCrockford(c) {
      var v := Position(c);
      AlphaReads(v);
    } else if 97 <= c <= 122 && IsCrockford(c - 32) {
      LowerReads(c);
    }
  }

  lemma LowerReads(c: u8)
    requires 97 <= c <= 122 && IsCrockford(c - 32)
    ensures Val(c) >= 0 && Alpha(Val(c)) == c - 32
  {
    var v := Position(c - 32);
    AlphaReads(v);
    UnfoldVal(Folds(), c);
    UnfoldVal(Folds(), c - 32);
  }

  // --------------------------------------------------------------------- texts

  lemma CanonSnoc(text: seq<u8>, i: nat)
    requires i < |text|
    ensures Canon(text[..i + 1])
         == if IsGrouping(text[i]) then Canon(text[..i]) else Canon(text[..i]) + [Fold(text[i])]
  {
    assert text[..i + 1][..i] == text[..i];
  }

  /** A readable text's canonical form spells its values. */
  lemma {:induction false} CanonSpells(text: seq<u8>, i: nat)
    requires i <= |text| && Readable(text[..i])
    ensures Canon(text[..i]) == Spell(Values(text[..i]))
    decreases i
  {
    if i != 0 {
      ReadableSnoc(text, i - 1);
      CanonSpells(text, i - 1);
      CanonSnoc(text, i - 1);
      ValuesSnoc(text, i - 1);
      FoldSpells(text[i - 1]);
      if Val(text[i - 1]) >= 0 {
        SpellSnoc(Values(text[..i - 1]), Val(text[i - 1]));
      }
    }
  }

  /** A grouping character changes nothing. */
  lemma ReadsNothing(text: seq<u8>, i: nat)
    requires i < |text| && IsGrouping(text[i])
    ensures Canon(text[..i + 1]) == Canon(text[..i]) && Values(text[..i + 1]) == Values(text[..i])
    ensures Readable(text[..i + 1]) <==> Readable(text[..i])
  {
    CanonSnoc(text, i);
    ReadableSnoc(text, i);
    ValuesSnoc(text, i);
    FoldSpells(text[i]);
  }

  /** A significant character adds its value, if the canonical form spells values at all. */
  lemma ReadsOne(text: seq<u8>, i: nat, v: seq<quint>)
    requires i < |text| && !IsGrouping(text[i]) && Canon(text[..i + 1]) == Spell(v)
    ensures v != [] && Canon(text[..i]) == Spell(v[..|v| - 1])
    ensures Readable(text[..i]) && Values(text[..i]) == v[..|v| - 1] ==> Readable(text[..i + 1]) && Values(text[..i + 1]) == v
  {
    CanonSnoc(text, i);
    SpelledLast(Canon(text[..i]), text[i], v);
    ReadableSnoc(text, i);
    ValuesSnoc(text, i);
  }

  /** A text whose canonical form spells some values is readable, and reads as them. */
  lemma {:induction false} SpelledReads(text: seq<u8>, i: nat, v: seq<quint>)
    requires i <= |text| && Canon(text[..i]) == Spell(v)
    ensures Readable(text[..i]) && Values(text[..i]) == v
    decreases i
  {
    if i == 0 {
      assert v == [];
    } else if IsGrouping(text[i - 1]) {
      ReadsNothing(text, i - 1);
      SpelledReads(text, i - 1, v);
    } else {
      ReadsOne(text, i - 1, v);
      SpelledReads(text, i - 1, v[..|v| - 1]);
    }
  }

  lemma SpelledLast(s: seq<u8>, c: u8, v: seq<quint>)
    requires !IsGrouping(c) && s + [Fold(c)] == Spell(v)
    ensures v != []
    ensures s == Spell(v[..|v| - 1]) && Val(c) == v[|v| - 1] && v == v[..|v| - 1] + [Val(c)]
  {
    assert |s + [Fold(c)]| == |v|;
    var w, d := v[..|v| - 1], v[|v| - 1];
    assert v == w + [d];
    SpellSnoc(w, d);
    LastOf(s, Fold(c), Spell(w), Alpha(d));
    FoldReads(c, d);
  }

  lemma LastOf(s: seq<u8>, c: u8, t: seq<u8>, d: u8)
    requires s + [c] == t + [d]
    ensures s == t && c == d
  {
    assert (s + [c])[..|s|] == s && (t + [d])[..|t|] == t;
    assert (s + [c])[|s|] == c && (t + [d])[|t|] == d;
  }

  lemma SpellInjective(v: seq<quint>, w: seq<quint>)
    requires Spell(v) == Spell(w)
    ensures v == w
  {
    forall k | 0 <= k < |v|
      ensures v[k] == w[k]
    {
      assert Spell(v)[k] == Spell(w)[k];
      AlphaReads(v[k]);
      AlphaReads(w[k]);
    }
  }

  // --------------------------------------------------------------------- bytes

  /** Both sides of the codec have the same number of bits. */
  lemma SameBits(n: nat)
    ensures 0 <= Padding(n) < 5 && 8 * n + Padding(n) == 5 * Chars(n)
    ensures Pow(2, Padding(n)) > 0
    ensures Pow(256, n) * Pow(2, Padding(n)) == Pow(32, Chars(n))
  {
    assert Pow(2, 8) == 256 && Pow(2, 5) == 32;
    PowPow(2, 8, n);
    PowPow(2, 5, Chars(n));
    PowAdd(2, 8 * n, Padding(n));
    PowPositive(2, Padding(n));
  }

  lemma RegroupedIs(v: seq<quint>, n: nat)
    requires |v| == Chars(n)
    ensures Pow(2, Padding(n)) > 0
    ensures FromValues(v)
         == if Big(v, 32) % Pow(2, Padding(n)) != 0 then None
            else Some(Numeral(Big(v, 32) / Pow(2, Padding(n)), 256, n))
  {
    SameBits(n);
    UnfoldFromValues(Folds(), v);
    assert 5 * |v| % 8 == Padding(n) && 5 * |v| / 8 == n;
  }

  /** Exactly the encoding of the bytes regroups to them. */
  lemma EncodedValues(v: seq<quint>, bytes: seq<u8>)
    requires |v| == Chars(|bytes|)
    ensures FromValues(v) == Some(bytes) <==> v == EncodeValues(bytes)
  {
    var n := |bytes|;
    var w, x, y := Pow(2, Padding(n)), Big(v, 32), Big(bytes, 256);
    SameBits(n);
    ShlIs(y, Padding(n));
    RegroupedIs(v, n);
    BigBounds(v, 32);
    BigBounds(bytes, 256);
    ScaledBounds(x, y, w, Pow(256, n));
    if FromValues(v) == Some(bytes) {
      BigOfNumeral(x / w, 256, n);
      NumeralOfBig(v, 32);
    } else if v == EncodeValues(bytes) {
      BigOfNumeral(y * w, 32, Chars(n));
      NumeralOfBig(bytes, 256);
    }
  }

  lemma ScaledBounds(x: int, y: int, w: int, m: int)
    requires w > 0
    ensures 0 <= y < m ==> 0 <= y * w < m * w
    ensures 0 <= x < m * w ==> 0 <= x / w < m
    ensures (y * w) % w == 0 && (y * w) / w == y
    ensures x % w == 0 ==> x / w * w == x
  {
    DivUnique(w, y * w, y, 0);
    assert x == (x / w) * w + x % w;
    if 0 <= y < m {
      MulMono(0, y, w);
      MulMono(y + 1, m, w);
      assert (y + 1) * w == y * w + w;
    }
    if 0 <= x < m * w {
      MulMono(m, x / w, w);
      MulMono(x / w, -1, w);
    }
  }

  /** The strict decoder yields some bytes exactly for the texts of at most 1024 characters
      whose canonical form is the encoding of those bytes. */
  lemma StrictDecoding(text: seq<u8>, capacity: nat, n: nat, bytes: seq<u8>)
    requires 0 < n <= capacity
    ensures Decoded(text, capacity, n) == Some(bytes)
       <==> |bytes| == n && |text| <= MAX_INPUT && Canon(text) == Encode(bytes)
  {
    assert text[..|text|] == text;
    if Readable(text) {
      CanonSpells(text, |text|);
    }
    if |bytes| == n && |Values(text)| == Chars(n) {
      EncodedValues(Values(text), bytes);
      if Canon(text) == Encode(bytes) {
        SpelledReads(text, |text|, EncodeValues(bytes));
      }
    }
    if Canon(text) == Encode(bytes) {
      SpelledReads(text, |text|, EncodeValues(bytes));
    }
  }

  // ----------------------------------------------------------------- round trip

  lemma CanonOfAlpha(s: seq<u8>, v: quint)
    ensures Canon(s + [Alpha(v)]) == Canon(s) + [Alpha(v)]
  {
    AlphaReads(v);
    assert (s + [Alpha(v)])[..|s|] == s;
  }

  lemma {:induction false} CanonOfSpelled(v: seq<quint>)
    ensures Canon(Spell(v)) == Spell(v)
    decreases |v|
  {
    if v != [] {
      var w, d := v[..|v| - 1], v[|v| - 1];
      assert v == w + [d];
      CanonOfSpelled(w);
      SpellSnoc(w, d);
      CanonOfAlpha(Spell(w), d);
    }
  }

  /** An encoding is its own canonical form. */
  lemma EncodeIsCanonical(bytes: seq<u8>)
    ensures Canon(Encode(bytes)) == Encode(bytes)
  {
    CanonOfSpelled(EncodeValues(bytes));
  }

  /** Decoding undoes encoding. */
  lemma RoundTrip(bytes: seq<u8>, capacity: nat)
    requires 0 < |bytes| <= capacity && |bytes| <= MAX_INPUT / 2
    ensures Decoded(Encode(bytes), capacity, |bytes|) == Some(bytes)
  {
    EncodeIsCanonical(bytes);
    StrictDecoding(Encode(bytes), capacity, |bytes|, bytes);
  }

  /** Distinct byte strings of one length have distinct encodings. */
  lemma EncodeInjective(a: seq<u8>, b: seq<u8>)
    requires |a| == |b| && Encode(a) == Encode(b)
    ensures a == b
  {
    SpellInjective(EncodeValues(a), EncodeValues(b));
    EncodedValues(EncodeValues(a), a);
    EncodedValues(EncodeValues(b), b);
  }

  /** Two accepted texts decode alike exactly when their canonical forms agree: re-encoding is
      the identity test, dropping the grouping alone is not. */
  lemma SameBytesSameCanon(s: seq<u8>, t: seq<u8>, capacity: nat, n: nat)
    requires 0 < n <= capacity
    requires Decoded(s, capacity, n).Some? && Decoded(t, capacity, n).Some?
    ensures Decoded(s, capacity, n) == Decoded(t, capacity, n) <==> Canon(s) == Canon(t)
  {
    var a, b := Decoded(s, capacity, n).value, Decoded(t, capacity, n).value;
    StrictDecoding(s, capacity, n, a);
    StrictDecoding(t, capacity, n, b);
    if Canon(s) == Canon(t) {
      EncodeInjective(a, b);
    }
  }

  /** Whether a text of acceptable length decodes, and to what, depends on its canonical form
      only. */
  lemma OnlyCanonMatters(s: seq<u8>, t: seq<u8>, capacity: nat, n: nat)
    requires 0 < n <= capacity && |s| <= MAX_INPUT && |t| <= MAX_INPUT && Canon(s) == Canon(t)
    ensures Decoded(s, capacity, n) == Decoded(t, capacity, n)
  {
    var a, b := Decoded(s, capacity, n), Decoded(t, capacity, n);
    if a.Some? {
      StrictDecoding(s, capacity, n, a.value);
      StrictDecoding(t, capacity, n, a.value);
    } else if b.Some? {
      StrictDecoding(s, capacity, n, b.value);
      StrictDecoding(t, capacity, n, b.value);
    }
  }
}
