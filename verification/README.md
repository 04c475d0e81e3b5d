# VectiLicense, verified

A Dafny model of VectiLicense, an offline Ed25519 licence verifier: its field, scalar and curve
arithmetic, its two hash functions, its base32 codec, the licence check with its clock high-water
mark, the vendor's minter, the activation bridge and the two transport helpers. Code that the
sources run in place on arrays and structures is modelled by methods on arrays and classes, each
proved against a specification; the laws below are proved about those specifications.

| file | models |
|---|---|
| `Words`, `Digits`, `LittleEndian`, `Numerals`, `Modular`, `Bits`, `Wrappers` | machine integers (each 64-bit signed operation carries the absence of overflow as a condition), numerals, congruences, bitwise operators on two's-complement values |
| `Field`, `FieldPower`, `Scalar` | 16-limb arithmetic mod 2^255-19, addition chains, reduction mod the group order |
| `Curve`, `EdwardsLaw`, `Ladder`, `Decode` | extended coordinates, swap ladder, key decoding |
| `Group`, `AffineCurve`, `EdwardsGroup`, `RootSearch`, `Signature`, `Verify25519` | the curve as a group, the completeness of key decoding, and what signature verification decides |
| `Padding`, `Sha512`, `Sha256`, `BitLaws`, `Primes`, `Sha512Laws`, `Sha256Laws` | streaming hashes, and their specifications against FIPS 180-4: bits of the logical functions, constants as roots of primes, schedule, rounds and chain |
| `ShiftRegister`, `Base32`, `Base32Laws`, `Mint` | the two base32 codecs |
| `Core`, `Fingerprint`, `Verify`, `VerdictLaws`, `LicenseLaws`, `Issue`, `Existence` | the licence check, its verdict on the bytes, runs of it, minting, and that it can be passed |
| `Bridge`, `Mailbox` | the activation object, and its submit and pump under interleaving |
| `Chunk`, `Line` | reassembly and line framing |

`dafny verify dfyconfig.toml` checks everything.

Some definitions are "kept folded": a recursive wrapper of unspecified depth hides the body from
the verifier, and a lemma beside each opens it. This is a proof device only.

## Facts named, not proved

Three facts about the numbers and the curve appear as preconditions, never as assumptions of the
whole project: every nonzero element times its power p-2 is 1 (`AffineCurve.FieldInverses`, Fermat
for the prime p), d is not a square (`AffineCurve.NonSquare`), and the affine addition is
associative (part of `EdwardsGroup.NamedFacts`). `Signature.BaseHasOrderL`, that the base point's
order divides L, is a fourth, used only where signatures are made. Everything else about the group
is proved: closure, completeness, commutativity, negation, and that the extended coordinates refine
it. The bytes that vl_ed25519_verify compares are characterised without any of them (`Verify25519.Verify`).

## Where the code and its documentation differ

- docs/THREAT_MODEL.md:220 says that non-canonical encodings of A and R are accepted. The code
  rejects both: A is re-encoded and compared, and R is compared as bytes with a frozen encoding.
  The header comment of core/vl_ed25519.c (lines 68-71) says so of R as well. The model follows
  the code (`Verify25519.AcceptedIsReduced`, `Signature.AcceptedIsCanonical`).
- bridge/vl_bridge.h:115 promises that blob() is the blob currently in force, or empty. The early
  returns of `begin` set only the status, so blob() may show a text that is not in force; the
  fields left behind are private, and license() and feature() show nothing of them.
  `Bridge.BeginKeepsTidy` and `Bridge.RunsAreTidy` state exactly when the promise holds, and
  `Bridge.BeginLeavesBlob` gives the case where it does not.
- An expired licence is not refused for ever: `LicenseLaws.ExpiredIsForgotten` and
  `LicenseLaws.RefusedInEveryRun`.

## Model

| member | source | states |
|---|---|---|
| Field.Car25519 | core/vl_ed25519.c:122-132 | one carry pass, in place: the limbs become the carried limbs exactly, no operation leaves 64 bits for limbs up to 0x27<<56 |
| Field.CarriedValue | core/vl_ed25519.c:122-132 | a carry pass changes the value only by a multiple of p = 2^255-19, top carry folded in times 38 |
| Field.TwoPasses | core/vl_ed25519.c:212-215 | the folded product needs two passes: limbs 1..15 end in [0, 65535], limb 0 in [-38, 65573], value kept mod p |
| Field.FreezePasses | core/vl_ed25519.c:150-152 | three passes bring limbs below 2^26 into [0, 65535], value kept mod p |
| Field.Set25519 | core/vl_ed25519.c:116-120 | a copy that is right even when both are one array |
| Field.A | core/vl_ed25519.c:194-198 | sum of the values, aliased or not, and the doubled limb bound |
| Field.Z | core/vl_ed25519.c:200-204 | difference of the values, aliased or not, and the doubled limb bound |
| Field.Product | core/vl_ed25519.c:206-211 | the schoolbook product is exact over the integers; every partial sum fits 64 bits when both factors have limbs below 2^26 |
| Field.FoldValue | core/vl_ed25519.c:212-213 | folding the high half times 38 keeps the value mod p |
| Field.M | core/vl_ed25519.c:206-216 | product mod p for limbs below 2^26, any aliasing of the three arguments, and the tight limb ranges |
| Field.S | core/vl_ed25519.c:218-221 | square mod p, in place or not |
| Field.MaskedSwap | core/vl_ed25519.c:136-141 | the mask and the xors on negative limbs are a swap or nothing |
| Field.Sel25519 | core/vl_ed25519.c:134-143 | swaps the two arrays exactly when the bit is 1 |
| Field.SubtractP | core/vl_ed25519.c:154-161 | m = t - p limb by limb with borrows; the borrow bit is 1 exactly when t < p |
| Field.SubtractTwice | core/vl_ed25519.c:153-163 | two conditional subtractions reduce any 16 normal limbs into [0, p) |
| Field.Pack25519 | core/vl_ed25519.c:145-168 | the 32 bytes are the little-endian representative in [0, p), for every element with limbs below 2^26 |
| Field.Neq25519 | core/vl_ed25519.c:170-178 | 0 exactly when the elements are congruent mod p, else 1 |
| Field.Par25519 | core/vl_ed25519.c:180-185 | parity of the canonical representative |
| Field.Unpack25519 | core/vl_ed25519.c:187-192 | the low 255 bits of the key, not reduced mod p |
| FieldPower.InverseChain | core/vl_ed25519.c:228-231 | the exponent that the chain with the skipped multiplications at 2 and 4 reaches is p - 2 |
| FieldPower.RootChain | core/vl_ed25519.c:240-243 | the exponent of the chain with the skip at 1 is 2^252 - 3 |
| FieldPower.Inv25519 | core/vl_ed25519.c:223-233 | x^(p-2) mod p for every x, limb bounds held on every iteration |
| FieldPower.Pow2523 | core/vl_ed25519.c:235-245 | x^(2^252-3) mod p for every x |
| Scalar.EliminateRow | core/vl_ed25519.c:321-331 | the carry out of a row is in {-1, 0, 1}, its digits end in [-128, 127], every product fits 64 bits, and the value moves by a multiple of the low part of L |
| Scalar.EliminateDigit | core/vl_ed25519.c:320-334 | eliminating one high digit changes the value by an exact multiple of L, the neighbour digit by at most 1 |
| Scalar.EliminateOne | core/vl_ed25519.c:320-334 | the digit ranges that the next row needs survive each row |
| Scalar.EliminateAll | core/vl_ed25519.c:320-334 | after all rows the upper digits are zero and the value is congruent mod L |
| Scalar.QuotientFits | core/vl_ed25519.c:336-337 | the quotient guessed from the top digit leaves a value strictly between -L and L |
| Scalar.SubtractQuotient | core/vl_ed25519.c:335-340 | subtracts that multiple of L, digits back in [0, 255], carry bounded |
| Scalar.FinalCarry | core/vl_ed25519.c:335-341 | the last carry is 0 or -1, and adding L back gives the remainder |
| Scalar.ModL | core/vl_ed25519.c:316-346 | writes exactly the input mod L, in [0, L), for every 64 digits in [0, 255] |
| Scalar.Reduce | core/vl_ed25519.c:348-356 | for every 64-byte input, the low 32 bytes are the little-endian input mod L and the rest are zero |
| Scalar.ScalarIsReduced | core/vl_ed25519.c:433-441 | true exactly when S < L |
| Curve.D2Value | core/vl_ed25519.c:94-97 | the constant D2 is 2d mod p |
| Curve.CrossProducts | core/vl_ed25519.c:253-258 | (Y1-X1)(Y2-X2) and (X1+Y1)(X2+Y2) mod p; the operands of both products have limbs below 2^26 |
| Curve.ScaledProducts | core/vl_ed25519.c:259-262 | 2d T1 T2 and 2 Z1 Z2 mod p, inside the limb bounds |
| Curve.Add | core/vl_ed25519.c:249-272 | the extended-coordinate sum mod p, also when both arguments are one point, and coordinates fit for the next addition |
| EdwardsLaw.AdditionLaw | core/vl_ed25519.c:249-272 | X3(Z1Z2+dT1T2) = Z3(X1Y2+Y1X2), Y3(Z1Z2-dT1T2) = Z3(Y1Y2+X1X2) and X3Y3 = Z3T3 mod p, for all coordinates (section 5.1.4 of RFC 8032) |
| EdwardsLaw.SumStaysOnCurve | core/vl_ed25519.c:249-272 | the sum of two points on the curve is on the curve and keeps XY = ZT, with no assumption |
| Curve.Cswap | core/vl_ed25519.c:274-278 | swaps both points coordinate by coordinate exactly when the bit is 1 |
| Ladder.RungBit | core/vl_ed25519.c:298 | the shift and masks select bit i of the little-endian scalar |
| Ladder.Step | core/vl_ed25519.c:299-302 | one rung, aliasing included: the registers become (p+q, 2q) for bit 1 and (2p, q+p) for bit 0 |
| Ladder.Scalarmult | core/vl_ed25519.c:290-304 | both registers hold what 256 rungs of the ladder give, q clobbered |
| Ladder.Scalarbase | core/vl_ed25519.c:306-314 | the ladder on the base point, whose T coordinate is X Y mod p |
| Ladder.Pack | core/vl_ed25519.c:280-288 | the 32 bytes encode y in the low 255 bits and the parity of x on top, of the coordinates divided by Z^(p-2) |
| AffineCurve.PowerIsInverse | core/vl_ed25519.c:223-233 | the power the code computes is the field inverse (Fermat named, see below) |
| AffineCurve.CrossIsNoUnit | core/vl_ed25519.c:249-272 | the addition law is complete: d x1 x2 y1 y2 is never 1 or -1 on the curve, if d is no square |
| AffineCurve.AddRefinesAffine | core/vl_ed25519.c:249-272 | the coordinates of the sum divide to the affine Edwards sum of the divided coordinates, Z never zero |
| AffineCurve.AffineIsQuotients | core/vl_ed25519.c:283-285 | what pack computes are the affine coordinates |
| EdwardsGroup.CurveLaws | core/vl_ed25519.c:249-272 | the affine curve is closed, commutative, with neutral element (0, 1) and negation (-x, y) |
| EdwardsGroup.BitsAreScalar | core/vl_ed25519.c:297-298 | the bits taken from the top spell the little-endian scalar |
| EdwardsGroup.LadderInvariant | core/vl_ed25519.c:297-303 | after the bits from i up, spelling k, the registers hold k Q and (k+1) Q |
| EdwardsGroup.LadderMultiplies | core/vl_ed25519.c:290-304 | scalarmult leaves s Q for every scalar s and every point Q of the curve |
| EdwardsGroup.Constants | core/vl_ed25519.c:94-103 | d = -121665/121666, I^2 = -1, y of the base point is 4/5, its x is even, and it is on the curve |
| EdwardsGroup.Moduli | core/vl_ed25519.c:105-112 | p = 2^255 - 19 and L = 2^252 + 27742317777372353535851937790883648493 |
| EdwardsGroup.BasePointIsGood | core/vl_ed25519.c:306-312 | the base point register stands for that affine point |
| Decode.Fraction | core/vl_ed25519.c:397-400 | numerator y^2-1 and denominator 1+d y^2, inside the limb bounds |
| Decode.SolveX | core/vl_ed25519.c:402-420 | the root tried is (u/v)^((p+3)/8), times I unless it already is one; success exactly when it is a root |
| Decode.IsCanonical | core/vl_ed25519.c:393-395 | true exactly when the 255-bit y of the key is below p |
| Decode.OppositeSign | core/vl_ed25519.c:422 | x is negated exactly when its parity equals the sign bit |
| Decode.LowOrder | core/vl_ed25519.c:364-381 | whether three doublings of the point pack to the identity |
| Decode.Unpackneg | core/vl_ed25519.c:383-428 | 0 or -1 and the point, exactly as the decoding specification says |
| Decode.DecodedIsOnCurve | core/vl_ed25519.c:383-428 | an accepted key has y < p, satisfies -x^2+y^2 = 1+d x^2 y^2 and X Y = Z T mod p, and 8A does not pack to the identity (section 5.1.3 of RFC 8032, negated) |
| EdwardsGroup.DecodedSign | core/vl_ed25519.c:422-426 | its x is nonzero and has the parity opposite to the sign bit; x = 0 is excluded as low order |
| Signature.DecodeEncode | core/vl_ed25519.c:383-428 | encoding the decoded point, un-negated, gives the key bytes back |
| Signature.LowOrderMeans | core/vl_ed25519.c:364-381 | the order check decides exactly whether 8 times the point is the neutral element of the curve group |
| RootSearch.ChosenIsRoot | core/vl_ed25519.c:402-420 | the root search is complete: if u/v has any root, the candidate or its product with I is one |
| RootSearch.KeyPointComplete | core/vl_ed25519.c:383-420 | every key whose y is below p and belongs to a point of the curve denotes a point |
| Signature.EncodedKey | core/vl_ed25519.c:383-426 | the encoding of a curve point decodes to that point |
| Signature.KeyOrder | core/vl_ed25519.c:383-428 | a key that denotes a point A is accepted exactly when 8A is not neutral |
| Signature.KeyIsUsed | core/vl_ed25519.c:383-428 | the accepted keys are exactly the 32-byte encodings of the curve points A with 8A not neutral |
| Util.CtEq | core/vl_util.c:32-53 | 1 exactly for equal, non-empty buffers, else 0 |
| Verify25519.ChallengeBytes | core/vl_ed25519.c:466-471 | SHA-512(R, A, M) mod L as 32 bytes, streamed in three parts |
| Verify25519.Verify | core/vl_ed25519.c:445-483 | 1 exactly when S < L, the key decodes, and the packed h(-A) + S B repeats the R bytes; else 0 |
| Verify25519.AcceptedIsReduced | core/vl_ed25519.c:280-288 | an accepted R is the encoding of reduced affine coordinates, sign bit included, and an accepted key has y < p, against docs/THREAT_MODEL.md:220 and the header comment; no named fact is used |
| Signature.AcceptedIsCanonical | core/vl_ed25519.c:445-483 | an accepted R and an accepted key are canonical encodings of the points S B - h A and A, which rules out a sign bit on x = 0 |
| Signature.EncodeInjective | core/vl_ed25519.c:280-288 | a curve point is determined by its 32-byte encoding |
| Signature.CheckPointIs | core/vl_ed25519.c:473-475 | the coordinates compared with R stand for S B - h A in the curve group |
| Signature.AcceptsMeans | core/vl_ed25519.c:445-483 | returns 1 if and only if S < L, the key is accepted and R encodes S B - h A (section 5.1.7 of RFC 8032) |
| Signature.VerificationEquation | core/vl_ed25519.c:445-483 | for R encoding a point: accepted if and only if S < L, the key is accepted and S B = R + h A, with h the hash of R, A and M in that order, written out |
| Signature.EquationWithSha512 | core/vl_ed25519.c:445-483 | the same with h = SHA-512(R || A || M) mod L written out, for messages that one SHA-512 can hash |
| Signature.SomeSignature | core/vl_ed25519.c:445-483 | for every message there is an accepted signature, under the key of secret 1 |
| Signature.SignedIsAccepted | core/vl_ed25519.c:445-483 | every signature made as section 5.1.6 of RFC 8032 says with the secret of an accepted key is accepted |
| Signature.SignedWithSha512 | core/vl_ed25519.c:445-483 | the same with S = (r + h a) mod L and h = SHA-512(R || A || M) mod L written out |
| Group.Group.TimesRung | core/vl_ed25519.c:298-302 | over any commutative group, a rung takes k and k+1 times Q to 2k+b and 2k+b+1 times Q |
| Group.Group.TimesNeg | core/vl_ed25519.c:473-475 | a multiple of the negation is the negation of the multiple |
| Padding.PadIsWhole | core/vl_sha512.c:160-166 | the padded message is a whole number of blocks, and the shortest one with room for the marker and the length |
| Padding.PadBytes | core/vl_sha512.c:157-172 | byte by byte: the message, the marker 0x80, zeros, and the bit count as a big-endian number |
| Padding.PadInjective | core/vl_sha512.c:157-172 | padding with the true length loses nothing |
| Sha512.CompressBlock | core/vl_sha512.c:48-87 | the chaining value becomes the compression of section 6.4.2 of FIPS 180-4 |
| Sha512Laws.BigSigmaBits | core/vl_sha512.c:71-74 | bit i of the two big sigmas is the parity of three bits of x: those 28, 34, 39 and those 14, 18, 41 places up, modulo 64 |
| Sha512Laws.SmallSigmaBits | core/vl_sha512.c:62-63 | bit i of the two small sigmas is the parity of the bits 1, 8 and 19, 61 places up, modulo 64, and the one shifted down by 7 and by 6 |
| Sha512Laws.ChoiceBits | core/vl_sha512.c:72-75 | bit i of Ch is the bit of y where x has 1 and of z elsewhere; bit i of Maj is the majority |
| Primes.FirstPrimes | core/vl_sha512.c:11-41 | the table behind the constants holds consecutive primes from 2 on, eighty of them |
| Sha512Laws.ConstantsAreRoots | core/vl_sha512.c:11-41 | K[i] is the first 64 bits of the fraction of the cube root of the i-th prime, as integer brackets |
| Sha512Laws.InitialAreRoots | core/vl_sha512.c:94-101 | the initial value is the first 64 bits of the fractions of the square roots of the first eight primes |
| Sha512Laws.ScheduleIs | core/vl_sha512.c:54-65 | the first 16 words are the block read big-endian, every later one the recurrence on the words 2, 7, 15 and 16 before |
| Sha512Laws.CompressionIs | core/vl_sha512.c:67-84 | the rounds as two recurrences a and e of 84 words, and the new chaining value as the old one plus their last four |
| Sha512Laws.DigestIs | core/vl_sha512.c:89-182 | the digest spells, big-endian, the last of a chain of values that starts at the initial one and takes in the padded message block by block |
| Sha512.FoldAppend | core/vl_sha512.c:136-140 | folding over a whole number of blocks can stop and go on |
| Sha512.LengthWords | core/vl_sha512.c:157-172 | the shifted halves of the byte counter are the 128-bit big-endian bit count |
| Sha512.GapFromHeld | core/vl_sha512.c:160-166 | zeros up to the length field, one block more when the field no longer fits |
| Sha512.Context.Update | core/vl_sha512.c:106-145 | absorbs any piece: everything absorbed is the old message and the piece, empty ones included |
| Sha512.Context.CloseMessage | core/vl_sha512.c:160-166 | marker and zeros, in one block or two |
| Sha512.Context.Final | core/vl_sha512.c:147-182 | the digest of the padded message, and a wiped context |
| Sha512.HashParts | core/vl_sha512.c:89-190 | init, any updates, final: the SHA-512 of the joined parts, for every partition, as long as the byte counter does not wrap |
| Sha256.CompressBlock | core/vl_sha256.c:35-73 | the compression of section 6.2.2 of FIPS 180-4 |
| Sha256Laws.BigSigmaBits | core/vl_sha256.c:57-60 | bit i of the two big sigmas is the parity of the bits 2, 13, 22 and 6, 11, 25 places up, modulo 32 |
| Sha256Laws.SmallSigmaBits | core/vl_sha256.c:48-49 | bit i of the two small sigmas is the parity of the bits 7, 18 and 17, 19 places up, modulo 32, and the one shifted down by 3 and by 10 |
| Sha256Laws.ChoiceBits | core/vl_sha256.c:58-61 | choice and majority, bit by bit |
| Sha256Laws.ConstantsAreRoots | core/vl_sha256.c:16-28 | K[i] is the first 32 bits of the fraction of the cube root of the i-th prime |
| Sha256Laws.InitialAreRoots | core/vl_sha256.c:80-87 | the initial value is the first 32 bits of the fractions of the square roots of the first eight primes |
| Sha256Laws.ScheduleIs | core/vl_sha256.c:41-51 | block words read big-endian, then the recurrence |
| Sha256Laws.CompressionIs | core/vl_sha256.c:53-70 | the rounds as two recurrences of 68 words, and the new chaining value as the old one plus their last four |
| Sha256Laws.DigestIs | core/vl_sha256.c:75-165 | the digest spells the last of the chain of values over the padded message |
| Sha256.GapFromHeld | core/vl_sha256.c:145-151 | as for SHA-512, with a 64-byte block and an 8-byte field |
| Sha256.Context.Update | core/vl_sha256.c:92-131 | absorbs any piece, empty ones included |
| Sha256.Context.Final | core/vl_sha256.c:133-165 | the digest of the padded message, and a wiped context |
| Sha256.HashParts | core/vl_sha256.c:75-173 | the SHA-256 of the joined parts, for every partition of a message below 2^61 bytes |
| ShiftRegister.Push | core/vl_base32.c:76 | the 32-bit buffer stays the bits read so far modulo 2^32, although it wraps |
| ShiftRegister.Take | core/vl_base32.c:80 | bits read from the buffer are bits of the unbounded number |
| Base32.EncodeText | core/vl_base32.c:55-88 | the encoding and a NUL, nothing else written; -1 exactly for more than 512 bytes or too little room |
| Base32.DecodeText | core/vl_base32.c:90-146 | the decoded bytes, nothing written past them; -1 exactly when the text is too long, out of the alphabet, too much for the buffer, has non-zero pad bits or the wrong count |
| Base32Laws.FoldSpells | core/vl_base32.c:36-53 | a character with a value folds to the alphabet character of that value |
| Base32Laws.AlphabetIs | core/vl_base32.c:19-24 | the alphabet is, in the order of their codes, exactly the digits and the upper-case letters without I, L, O and U |
| Base32Laws.ReadingIs | core/vl_base32.c:26-53 | by character code: which characters are grouping, which have a value, I and L read as 1, O as 0, lower case as upper, and any other as its place in the alphabet |
| Base32Laws.StrictDecoding | core/vl_base32.c:90-146 | strict decoding gives bytes b if and only if |b| = n, the text has at most 1024 characters and its canonical form is encode(b) |
| Base32Laws.EncodeIsCanonical | core/vl_base32.c:55-88 | an encoding is its own canonical form |
| Base32Laws.RoundTrip | core/vl_base32.c:55-146 | decode(encode(b)) = b for 1 to 512 bytes |
| Base32Laws.EncodeInjective | core/vl_base32.c:55-88 | byte strings of one length have distinct encodings |
| Base32Laws.SameBytesSameCanon | core/vl_base32.c:90-146 | two accepted texts decode alike if and only if their canonical forms are equal |
| Base32Laws.OnlyCanonMatters | core/vl_base32.c:90-146 | whether and how a text of at most 1024 characters decodes depends on its canonical form only |
| Mint.EncodersAgree | tools/vl_mint.py:54-57 | the minter's bit-string encoder equals the device's, on every input |
| Mint.EncodedBits | core/vl_base32.c:55-88 | the characters read as the bits of the bytes from the top of the first on, five at a time, with zeros after the last |
| Mint.B32Decode | tools/vl_mint.py:60-81 | the minter's decoder accepts exactly the strict decodings, for every ASCII text and count |
| Mint.DecodersAgree | tools/vl_mint.py:60-81 | it agrees with the device's decoder on texts of at most 1024 characters and counts from 1; longer ones only the device refuses |
| Core.ReadLe32 | core/vl_core.c:42-48 | the four bytes as a little-endian number |
| Core.HasFeature | core/vl_core.c:83-89 | 1 exactly when there is a licence, the bit is at most 31 and it is set |
| Core.FindKey | core/vl_core.c:190-199 | the first key with the id; none exactly when no key has it |
| Core.IsRevoked | core/vl_core.c:205-217 | exactly whether the serial is listed |
| Core.EncodeDeviceId | core/vl_core.c:171-187 | the 26 characters of the first 16 bytes; fails only for want of room |
| Fingerprint.FramedInjective | core/vl_core.c:146-151 | length-prefixed framing is injective on segment lists, boundaries, empty segments and count included |
| Fingerprint.PreimageInjective | core/vl_core.c:125-153 | different lists of segments of at most 255 bytes are hashed as different strings |
| Fingerprint.PreimageBuilds | core/vl_core.c:125-151 | what is hashed is the text vectilicense:fingerprint:v1 and then, for every segment, one length byte and the segment |
| Fingerprint.FirstBadAnswer | core/vl_core.c:127-153 | the first answer that is not a segment decides: its status, PLATFORM for more than 255 bytes, or the end of the list |
| Fingerprint.EnumeratesAll | core/vl_core.c:127-153 | at most the first 64 segments count |
| Fingerprint.ComputeFingerprint | core/vl_core.c:111-169 | SHA-256 of the preimage of the segments accepted; otherwise the callback's failure, or PLATFORM for none or an overlong one, and zeros |
| Verify.CheckHeader | core/vl_core.c:275-301 | magic, version, family, key, in that order, and the fields |
| Verify.CheckMark | core/vl_core.c:360-375 | the mark moves exactly when all passed, to the clock reading; load, rollback and store failures leave it |
| Verify.CheckTime | core/vl_core.c:335-376 | window bounds inclusive, 0 unbounded, no clock only if not required |
| Verify.VerifyLicense | core/vl_core.c:219-393 | status, licence handed back (zeros unless OK) and stored mark, for every text, configuration, platform and mark, NULL arguments included |
| LicenseLaws.AcceptedIff | core/vl_core.c:219-393 | OK if and only if every condition holds: the order of the checks only decides which failure is reported |
| VerdictLaws.FieldsAre | core/vl_core.c:284-291 | where each field is in the 100 bytes, byte by byte |
| VerdictLaws.VerdictIs | core/vl_core.c:240-375 | every call is answered with the code of the first of eighteen checks that fails, the checks and the codes written out on the bytes |
| VerdictLaws.AcceptedIsBound | core/vl_core.c:315-322 | the device id of an accepted licence is the first 16 bytes of SHA-256 over the segments that the platform lists |
| VerdictLaws.OtherDevice | core/vl_core.c:315-322 | a licence that passes every earlier check but is bound to another device gets DEVICE_MISMATCH |
| VerdictLaws.AcceptedReports | core/vl_core.c:284-381 | the fields handed back, which checks are reported as made, and the new mark |
| VerdictLaws.RefusedIsBlank | core/vl_core.c:383-393 | a refusal hands back zeros only and leaves the mark alone |
| LicenseLaws.OnlyCanonDecides | core/vl_core.c:270-306 | two spellings of at most 1024 characters with one canonical form get the same status, licence and mark |
| LicenseLaws.CallMovesMark | core/vl_core.c:360-375 | one call with rollback protection moves the mark exactly when it is accepted, to its clock reading, never back |
| LicenseLaws.MarkIsMonotone | core/vl_core.c:360-375 | over any run of calls on one store and an arbitrary clock, the mark never decreases |
| LicenseLaws.AcceptedClocksAreMonotone | core/vl_core.c:344-375 | clock readings at accepted calls never decrease, whatever happens in between |
| LicenseLaws.ExpiredBeforeAcceptance | core/vl_core.c:344-375 | after an acceptance at t no licence that ended before t is accepted again |
| LicenseLaws.MarkIsLastAccepted | core/vl_core.c:360-375 | the mark is the reading of the last accepted call, or the start |
| LicenseLaws.AcceptedTimes | core/vl_core.c:344-375 | the exact clock readings at which a genuine licence is accepted |
| LicenseLaws.ExpiredIsForgotten | core/vl_core.c:354-372 | "once EXPIRED, always EXPIRED" is false: refused past its end, then accepted at an earlier reading, since a refusal leaves the mark |
| LicenseLaws.RefusedForEver | core/vl_core.c:344-375 | against a given mark, a genuine licence is refused at every reading if and only if the mark is past its end or its window is empty |
| LicenseLaws.PastItsEnd | core/vl_core.c:344-375 | once the mark of a run is past the end of a licence, no later call of the run accepts that licence |
| LicenseLaws.RefusedInEveryRun | core/vl_core.c:344-375 | a genuine licence is refused in every continuation of a run, at every reading, if and only if the mark reached is past its end or its window is empty |
| Issue.ParsePayload | tools/vl_mint.py:84-91 | parsing undoes packing, whatever the signature |
| Issue.PackParsed | tools/vl_mint.py:84-91 | packing undoes parsing, for every blob with the right magic and version |
| Issue.IssuesIff | tools/vl_mint.py:247-273 | a blob is issued if and only if all fields are in range, the window is ordered and the signature passes its self-check with 64 bytes |
| Issue.SpelledThenVerified | core/vl_core.c:270-306 | a signed payload in any spelling of at most 1024 characters verifies and gives its fields back |
| Issue.MintThenVerify | tools/vl_mint.py:268-273 | mint then verify is the identity on the fields, given a correct signature and a matching platform and configuration |
| Issue.ReportedIdIsItsOwn | tools/vl_mint.py:60-81 | a device id reported in any spelling is read back by the minter as the first 16 bytes of the fingerprint, and the device accepts it as its own |
| Issue.ReportMintVerify | tools/vl_mint.py:247-273 | the whole way: id shown, reported in any spelling, licence minted for it, blob verified on that device with the fields issued |
| Issue.EdwardsSigningIsCorrect | tools/vl_mint.py:269-271 | signing as RFC 8032 does is correct in the sense that the previous row needs |
| Issue.VerifiedWasMinted | core/vl_core.c:270-311 | conversely, an accepted text is a spelling of the minter's encoding of the fields it yields with a signature over them |
| Existence.EveryLicenceCanVerify | core/vl_core.c:219-393 | for all in-range fields and every platform of their device on which they are timely, some key and blob verify and give the fields back |
| Existence.SomeCallIsReady | core/vl_core.c:344-375 | every window has a genuine licence on a platform whose mark works, so the laws about runs and expiry speak of calls that exist |
| Issue.FingerprintOf | tools/vl_mint.py:94-105 | the minter's fingerprint is SHA-256 of the same preimage; an overlong segment is refused |
| Issue.FingerprintsAgree | core/vl_core.c:111-169 | the device computes the same fingerprint from the same 1 to 64 segments |
| Bridge.FoldText | bridge/vl_bridge.h:222-231 | the character-by-character fold is the canonical form, cut at 160 characters |
| Bridge.KeptIsCanon | bridge/vl_bridge.h:215-231 | the text kept, vl_base32_encode of the decoded bytes, is the canonical form of the blob that verified, 160 characters |
| Bridge.ReapplyIsStable | bridge/vl_bridge.h:199-239 | applying the kept text again decodes to the same bytes and gives the same outcome under any later configuration, platform and mark |
| Bridge.AppliedIsCoherent | bridge/vl_bridge.h:199-239 | what is shown is empty, or the fields and the one spelling of the same 100 bytes |
| Bridge.BeginKeepsTidy | bridge/vl_bridge.h:126-135 | begin leaves nothing shown of a licence not in force if and only if it reaches the check or nothing was shown before |
| Bridge.BeginLeavesBlob | bridge/vl_bridge.h:107-135 | the failing case: after a successful activation, a begin that finds nothing stored leaves blob() at 160 characters, while license() and feature() show nothing |
| Bridge.RunsAreTidy | bridge/vl_bridge.h:126-186 | over every run of begin, activate, pump and clear: what is shown in force is one licence and its one spelling, and nothing else is shown if and only if the run does not end with early returns after a state in which a licence was shown |
| Bridge.Holder.Apply | bridge/vl_bridge.h:199-239 | the whole new state, the mark, and what is stored; a licence that could not be stored is in force and reported as PLATFORM |
| Bridge.Holder.Begin | bridge/vl_bridge.h:126-135 | the new state and mark, early returns setting only the status |
| Bridge.Holder.Submit | bridge/vl_bridge.h:148-155 | taken exactly when 1 to 223 bytes are offered and none wait; the slot then holds them, a NUL and what was behind, else it is unchanged |
| Bridge.Holder.Pump | bridge/vl_bridge.h:161-168 | applies exactly the waiting text, with state, mark, stored text and result as activate gives them, and empties the slot; does nothing when none waits |
| Bridge.Holder.Clear | bridge/vl_bridge.h:180-186 | nothing is shown, and the stored text is emptied if the store works |
| Mailbox.StepKeeps | bridge/vl_bridge.h:148-168 | every step of either task keeps the mailbox invariant |
| Mailbox.AppliedInOrder | bridge/vl_bridge.h:148-168 | in every interleaving of byte-wise copy and byte-wise read, accepted submissions are applied at most once, in order, as C strings |
| Mailbox.WaitingIsUndisturbed | bridge/vl_bridge.h:148-168 | a published submission is not overwritten before it is applied |
| Mailbox.EveryOneIsApplied | bridge/vl_bridge.h:161-168 | every accepted submission is applied, in order: at the latest when the loop task has taken 225 further steps, whatever the other task does between them |
| Mailbox.CallIsAnswered | bridge/vl_bridge.h:148-155 | however a run goes on, a call refused at its test of the flag never enters the accepted submissions, and one taken enters them exactly once, when it is published |
| Mailbox.RefusedTouchesNothing | bridge/vl_bridge.h:150 | the step that refuses a call changes neither slot nor flag |
| Mailbox.SubmitRun | bridge/vl_bridge.h:151-153 | a submission not disturbed leaves the slot exactly as Bridge.Holder.Submit does, the flag set last |
| Mailbox.PumpRun | bridge/vl_bridge.h:161-165 | a pump not disturbed applies the C string in the slot and leaves the slot exactly as Bridge.Holder.Pump does |
| Chunk.PiecesTile | transport/vl_chunk.c:65-67 | pieces lie inside the message, are not empty, and each ends where the next starts |
| Chunk.PiecesAreDisjoint | transport/vl_chunk.c:65-67 | no two pieces share a byte |
| Chunk.MarkOne | transport/vl_chunk.c:74-82 | setting a bitmap bit sets that bit and no other |
| Chunk.HoldingAfter | transport/vl_chunk.c:81 | a new piece disturbs no piece held |
| Chunk.Reassembly.Reset | transport/vl_chunk.c:17-49 | sizes checked as the 32-bit values stored; a refusal leaves the state disarmed, success an empty map |
| Chunk.Reassembly.Feed | transport/vl_chunk.c:51-85 | while armed, OK exactly when the piece is well-formed and afterwards held with these bytes, otherwise BAD_FORMAT and no change; held bytes never change, no 32-bit overflow |
| Chunk.Below | transport/vl_chunk.c:83 | a count of distinct pieces equals the number expected exactly when all are there |
| Chunk.Reassembly.Finish | transport/vl_chunk.c:87-102 | succeeds exactly when armed, every piece is there and there is room; then the pieces in order and a NUL |
| Chunk.FirstCopyWins | transport/vl_chunk.c:75-84 | a run keeps exactly the first well-formed copy of each piece, whatever else arrives |
| Chunk.OfferIs | transport/vl_chunk.c:51-85 | OK exactly when the piece starts inside the message, has the length left for it, and is afterwards held with these bytes; otherwise BAD_FORMAT and nothing changes |
| Chunk.Answers | transport/vl_chunk.c:51-85 | over a run from one reset, a feed is answered OK exactly when its bytes are those of the first well-formed copy of its piece, and BAD_FORMAT otherwise |
| Chunk.AnyOrder | transport/vl_chunk.c:51-102 | in any order and with any repetition, the pieces of one message give that message |
| Chunk.Reassemble | transport/vl_chunk.c:17-102 | reset, feeds and completion together |
| Line.LinesSnoc | transport/vl_line.c:35-45 | one more character against the split at CR and LF |
| Line.Framer.Push | transport/vl_line.c:22-62 | one pushed character reports exactly what the whole-stream specification gains by it; the length never passes the bound |
| Line.PushAll | transport/vl_line.c:22-62 | repeated pushes report the whole-stream specification: split, strip, drop empty lines, report overlong ones once |
| Line.ReadyIsClean | transport/vl_line.c:47-60 | a line reported has 1 to 200 characters, none blank, none an end of line |
| Line.StripIs | transport/vl_line.c:49 | a strip drops exactly the tabs, vertical tabs, form feeds and spaces |
| Line.LineReports | transport/vl_line.c:35-62 | a line ended by LF or CR adds nothing if it is blank, an error if more than 200 of its characters are no blanks, and otherwise those characters; nothing of it is left over |

## Left out

- NULL pointers passed to the hash, base32, chunk, line and vl_ed25519_verify routines, for which
  the sources return early. The arguments of vl_verify and the callbacks of the HAL that may be
  NULL are modelled.
- vl_secure_wipe beyond the values it writes, stack residue and constant-time behaviour: no
  functional properties.
- The split into methods is finer than the source's: one C function may be several methods here,
  each with its own contract. Local scratch buffers are fresh arrays.
- Sha512.Context.CloseMessage: counts the padding as buffered bytes, where the C code leaves
  buffer_len behind because the wipe follows.
- The 64-bit width of size_t is assumed where it matters (the byte counters, the expected count of
  the decoder, the chunk sizes).
- vl_license_t.checked and vl_config_t.flags are records of their named bits rather than words.
- The HAL: registers, flash and files. It is a list of answers, a clock reading, and a stored mark
  whose failed store changes nothing. The POSIX file store, which trims bytes from its mark file,
  is not part of this model.
- Verify.VerifyLicense: what the platform answers during one call is fixed at its start; a
  callback that changes its answer within one call is not modelled.
- Unforgeability and collision resistance: hardness is not a property of this code.
- Mint.B32Decode: characters above 255, for which Python's upper() has its own tables, are not modelled;
  the text is a sequence of byte codes and the agreement is meant for ASCII.
- Issue.FingerprintOf: messages of 2^61 bytes or more are excluded, as by SHA-256 itself.
- deviceId caching, vl_posture, vl_status_str, vl_version_str, licenseSummary and the result callback
  of the bridge: easy members or text.
- Bridge.Holder.Apply: the text kept is a sequence rather than a NUL-terminated buffer of 161
  characters.
- Mailbox.AppliedInOrder: sequential consistency and a single submitting task are assumed, as the
  header documents; the activation reads the slot once, byte by byte, rather than twice.
- Chunk.Reassembly.Feed, Line.Framer.Push: the build-time bounds are fixed at their defaults, 192 and 200.
- Key files, QR output and the command line of the minter, the sibling-library bridges, the
  examples, the unity build and the self-checks.
