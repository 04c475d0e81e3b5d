/** tools/vl_mint.py: payload, fingerprint and the assembly of a blob, against vl_verify. */
module Issue {
  import opened Words
  import opened Wrappers
  import opened LittleEndian
  import opened Core
  import opened Verify
  import Base32
  import Base32Laws
  import Mint
  import Fingerprint
  import LicenseLaws
  import Padding
  import Sha256
  import Signature
  import EdwardsGroup
  import Decode
  import Verify25519

  // ------------------------------------------------------------------- payload

  predicate IsU32(x: int)
  {
    0 <= x < TWO_32
  }

  /** The fields that a licence is issued with, before any range check. */
  datatype Fields = Fields(keyId: int, family: int, features: int, deviceId: seq<u8>,
                           notBefore: int, notAfter: int, serial: int)
  {
    predicate InRange()
    {
      && 0 <= keyId <= 255 && 0 <= family <= 255 && IsU32(features) && |deviceId| == DEVICE_ID_LEN
      && IsU32(notBefore) && IsU32(notAfter) && IsU32(serial)
    }
  }

  /** payload; None where Python raises: bytes() and struct.pack refuse what does not fit. */
  function Payload(f: Fields): (p: Option<seq<u8>>)
    ensures p.Some? ==> |p.value| == PAYLOAD_LEN
  {
    if !f.InRange() then None
    else
      Some([MAGIC, FORMAT_VERSION, f.keyId, f.family]
           + Bytes(f.features, 4) + f.deviceId
           + Bytes(f.notBefore, 4) + Bytes(f.notAfter, 4) + Bytes(f.serial, 4))
  }

  /** The parts of cmd_issue that decide the blob: the range checks, the signature over the
      prefixed payload, its self-check, and the encoding. */
  function IssueBlob(f: Fields, sign: seq<u8> -> seq<u8>, verify: (seq<u8>, seq<u8>) -> bool): Option<seq<u8>>
  {
    if |f.deviceId| != DEVICE_ID_LEN then None
    else if !(0 <= f.family <= 255) || !(0 <= f.keyId <= 255) then None
    else if !(0 <= f.features <= 0xffff_ffff) then None
    else if f.notBefore != 0 && f.notAfter != 0 && f.notAfter < f.notBefore then None
    else
      var p := Payload(f);
      if p.None? then None
      else
        var m := SIGN_PREFIX + p.value;
        var sig := sign(m);
        if !verify(sig, m) then None
        else if Base32.Chars(|p.value + sig|) != BLOB_STR_LEN then None
        else Some(Mint.B32(p.value + sig))
  }

  // ---------------------------------------------------------------- round trip

  /** The licence that a payload's fields make. */
  function AsLicense(f: Fields): License
    requires f.InRange()
  {
    License(FORMAT_VERSION, f.keyId, f.family, f.features, f.deviceId, f.notBefore, f.notAfter, f.serial, NOTHING)
  }

  lemma PayloadAt(f: Fields)
    requires f.InRange()
    ensures var p := Payload(f).value;
      && p[0] == MAGIC && p[1] == FORMAT_VERSION && p[2] == f.keyId && p[3] == f.family
      && p[4..8] == Bytes(f.features, 4) && p[8..24] == f.deviceId
      && p[24..28] == Bytes(f.notBefore, 4) && p[28..32] == Bytes(f.notAfter, 4)
      && p[32..36] == Bytes(f.serial, 4)
  {
  }

  /** Parsing undoes packing, whatever follows the payload. */
  lemma ParsePayload(f: Fields, sig: seq<u8>)
    requires f.InRange() && |sig| == 64
    ensures var bin := Payload(f).value + sig;
      && |bin| == BLOB_BIN_LEN && bin[0] == MAGIC && bin[1] == FORMAT_VERSION
      && Parsed(bin) == AsLicense(f) && bin[..PAYLOAD_LEN] == Payload(f).value && bin[PAYLOAD_LEN..] == sig
  {
    var p := Payload(f).value;
    var bin := p + sig;
    PayloadAt(f);
    ByteShiftsFour();
    LeOfBytes(f.features, 4);
    LeOfBytes(f.notBefore, 4);
    LeOfBytes(f.notAfter, 4);
    LeOfBytes(f.serial, 4);
    assert bin[..PAYLOAD_LEN] == p && bin[PAYLOAD_LEN..] == sig;
    SlicesOf(bin, p);
  }

  lemma SlicesOf(bin: seq<u8>, p: seq<u8>)
    requires |bin| == BLOB_BIN_LEN && |p| == PAYLOAD_LEN && bin[..PAYLOAD_LEN] == p
    ensures bin[4..8] == p[4..8] && bin[8..24] == p[8..24] && bin[24..28] == p[24..28]
    ensures bin[28..32] == p[28..32] && bin[32..36] == p[32..36]
    ensures bin[0] == p[0] && bin[1] == p[1] && bin[2] == p[2] && bin[3] == p[3]
  {
    assert forall k :: 0 <= k < PAYLOAD_LEN ==> bin[k] == p[k];
  }

  ghost function FieldsOf(lic: License): Fields
  {
    Fields(lic.keyId, lic.family, lic.features, lic.deviceId, lic.notBefore, lic.notAfter, lic.serial)
  }

  /** Packing undoes parsing: a blob with the right magic and version is a payload and 64 bytes
      of signature. */
  lemma PackParsed(bin: seq<u8>)
    requires |bin| == BLOB_BIN_LEN && bin[0] == MAGIC && bin[1] == FORMAT_VERSION
    ensures Payload(FieldsOf(Parsed(bin))) == Some(bin[..PAYLOAD_LEN])
  {
    ByteShiftsFour();
    BytesOfLe(bin[4..8]);
    BytesOfLe(bin[24..28]);
    BytesOfLe(bin[28..32]);
    BytesOfLe(bin[32..36]);
    Joined(bin[..PAYLOAD_LEN]);
    SlicesOf(bin, bin[..PAYLOAD_LEN]);
  }

  lemma Joined(p: seq<u8>)
    requires |p| == PAYLOAD_LEN
    ensures p == [p[0], p[1], p[2], p[3]] + p[4..8] + p[8..24] + p[24..28] + p[28..32] + p[32..36]
  {
  }

  /** What a platform and a configuration must be for a licence to be good there. */
  ghost predicate Fits(f: Fields, pk: seq<u8>, cfg: Config, hal: Hal, mark: u32)
    requires f.InRange()
  {
    && ArgumentsOk(Some([]), Some(cfg), Some(hal))
    && cfg.family == f.family && KeyFor(cfg.keys, f.keyId) == Some(PubKey(f.keyId, pk))
    && DeviceStatus(f.deviceId, hal) == OK
    && f.serial !in cfg.revokedSerials
    && LicenseLaws.Timely(AsLicense(f), cfg, hal, mark)
  }

  lemma MintedIsGenuine(f: Fields, sig: seq<u8>, pk: seq<u8>, cfg: Config, hal: Hal, mark: u32)
    requires f.InRange() && |sig| == 64 && Fits(f, pk, cfg, hal, mark)
    requires Verify25519.Accepts(sig, SIGN_PREFIX + Payload(f).value, pk)
    ensures var bin := Payload(f).value + sig;
      && |bin| == BLOB_BIN_LEN && Parsed(bin) == AsLicense(f)
      && LicenseLaws.Genuine(bin, cfg, hal)
  {
    var bin := Payload(f).value + sig;
    ParsePayload(f, sig);
    PayloadAt(f);
    SlicesOf(bin, Payload(f).value);
  }

  lemma AcceptedBinary(text: seq<u8>, bin: seq<u8>, lic: License, cfg: Config, hal: Hal, mark: u32)
    requires Binary(text) == Some(bin) && ArgumentsOk(Some([]), Some(cfg), Some(hal))
    requires Parsed(bin) == lic && LicenseLaws.Genuine(bin, cfg, hal) && LicenseLaws.Timely(lic, cfg, hal, mark)
    ensures StatusOf(Some(text), Some(cfg), Some(hal), mark) == OK
    ensures LicenseOf(Some(text), Some(cfg), Some(hal), mark) == lic.(checked := CheckedBy(cfg, hal))
  {
    LicenseLaws.AcceptedIff(Some(text), Some(cfg), Some(hal), mark);
  }

  /** A payload with a good signature, spelled in any way of at most 1024 characters, verifies
      and gives its fields back. */
  lemma SpelledThenVerified(f: Fields, sig: seq<u8>, pk: seq<u8>, text: seq<u8>, cfg: Config, hal: Hal, mark: u32)
    requires f.InRange() && |sig| == 64 && Fits(f, pk, cfg, hal, mark)
    requires Verify25519.Accepts(sig, SIGN_PREFIX + Payload(f).value, pk)
    requires |text| <= Base32.MAX_INPUT && Base32.Canon(text) == Mint.B32(Payload(f).value + sig)
    ensures StatusOf(Some(text), Some(cfg), Some(hal), mark) == OK
    ensures LicenseOf(Some(text), Some(cfg), Some(hal), mark) == AsLicense(f).(checked := CheckedBy(cfg, hal))
  {
    var bin := Payload(f).value + sig;
    Mint.EncodersAgree(bin);
    Base32Laws.StrictDecoding(text, BLOB_BIN_LEN, BLOB_BIN_LEN, bin);
    MintedIsGenuine(f, sig, pk, cfg, hal, mark);
    AcceptedBinary(text, bin, AsLicense(f), cfg, hal, mark);
  }

  /** Exactly what the minter refuses: fields out of range, a window that ends before it begins, a
      signature that fails its own check or is not 64 bytes long. */
  lemma IssuesIff(f: Fields, sign: seq<u8> -> seq<u8>, verify: (seq<u8>, seq<u8>) -> bool)
    ensures IssueBlob(f, sign, verify).Some? <==>
      && 0 <= f.keyId <= 255 && 0 <= f.family <= 255 && 0 <= f.features <= 0xffff_ffff && |f.deviceId| == 16
      && 0 <= f.notBefore <= 0xffff_ffff && 0 <= f.notAfter <= 0xffff_ffff && 0 <= f.serial <= 0xffff_ffff
      && (f.notBefore == 0 || f.notAfter == 0 || f.notBefore <= f.notAfter)
      && var m := SIGN_PREFIX + Payload(f).value;
         verify(sign(m), m) && |sign(m)| == 64
  {
    if f.InRange() {
      CharsDecide(|sign(SIGN_PREFIX + Payload(f).value)|);
    }
  }

  lemma CharsDecide(n: nat)
    ensures Base32.Chars(PAYLOAD_LEN + n) == BLOB_STR_LEN <==> n == 64
  {
  }

  /** What the minter prints. */
  lemma BlobIs(f: Fields, sign: seq<u8> -> seq<u8>, verify: (seq<u8>, seq<u8>) -> bool)
    requires f.InRange() && (f.notBefore == 0 || f.notAfter == 0 || f.notBefore <= f.notAfter)
    requires var m := SIGN_PREFIX + Payload(f).value; verify(sign(m), m) && |sign(m)| == 64
    ensures IssueBlob(f, sign, verify) == Some(Mint.B32(Payload(f).value + sign(SIGN_PREFIX + Payload(f).value)))
  {
    assert Base32.Chars(BLOB_BIN_LEN) == BLOB_STR_LEN;
  }

  lemma BinaryText(bin: seq<u8>)
    ensures |Mint.B32(bin)| == Base32.Chars(|bin|) && Base32.Canon(Mint.B32(bin)) == Mint.B32(bin)
  {
    Mint.EncodersAgree(bin);
    Base32Laws.EncodeIsCanonical(bin);
  }

  /** Minting then verifying is the identity on the fields, given signing that vl_ed25519_verify
      accepts. */
  lemma MintThenVerify(f: Fields, sign: seq<u8> -> seq<u8>, verify: (seq<u8>, seq<u8>) -> bool,
                       pk: seq<u8>, cfg: Config, hal: Hal, mark: u32)
    requires f.InRange() && Fits(f, pk, cfg, hal, mark)
    requires SignsWell(sign, verify, pk, SIGN_PREFIX + Payload(f).value)
    requires f.notBefore == 0 || f.notAfter == 0 || f.notBefore <= f.notAfter
    ensures var blob := IssueBlob(f, sign, verify);
      && blob.Some? && |blob.value| == BLOB_STR_LEN
      && StatusOf(blob, Some(cfg), Some(hal), mark) == OK
      && LicenseOf(blob, Some(cfg), Some(hal), mark) == AsLicense(f).(checked := CheckedBy(cfg, hal))
  {
    BlobIs(f, sign, verify);
    BinaryText(Payload(f).value + sign(SIGN_PREFIX + Payload(f).value));
    SpelledThenVerified(f, sign(SIGN_PREFIX + Payload(f).value), pk, IssueBlob(f, sign, verify).value, cfg, hal, mark);
  }

  /** A correct signature scheme, message by message. */
  ghost predicate SignsWell(sign: seq<u8> -> seq<u8>, verify: (seq<u8>, seq<u8>) -> bool, pk: seq<u8>, m: seq<u8>)
  {
    |sign(m)| == 64 && verify(sign(m), m) && Verify25519.Accepts(sign(m), m, pk)
  }

  /** Signing as RFC 8032 does, with the secret of an accepted key, is correct in this sense. */
  lemma EdwardsSigningIsCorrect(sign: seq<u8> -> seq<u8>, verify: (seq<u8>, seq<u8>) -> bool, pk: seq<u8>,
                                m: seq<u8>, a: nat, r: nat)
    requires EdwardsGroup.NamedFacts() && Signature.BaseHasOrderL()
    requires |pk| == 32 && Decode.DecodeNegated(pk).Some? && Signature.KeyOf(pk) == EdwardsGroup.E().Times(a, Signature.B)
    requires |sign(m)| == 64 && verify(sign(m), m) && Signature.IsSignature(sign(m), m, pk, a, r)
    ensures SignsWell(sign, verify, pk, m)
  {
    Signature.SignedIsAccepted(sign(m), m, pk, a, r);
  }

  /** Nothing but a minted blob verifies: an accepted text is a spelling of the encoding of the
      fields it yields, signed under the key that their key id selects. */
  lemma VerifiedWasMinted(text: seq<u8>, cfg: Config, hal: Hal, mark: u32) returns (sig: seq<u8>)
    requires StatusOf(Some(text), Some(cfg), Some(hal), mark) == OK
    ensures |sig| == 64 && |text| <= Base32.MAX_INPUT
    ensures var f := FieldsOf(LicenseOf(Some(text), Some(cfg), Some(hal), mark));
      && f.InRange() && f.family == cfg.family
      && Base32.Canon(text) == Mint.B32(Payload(f).value + sig)
      && KeyFor(cfg.keys, f.keyId).Some?
      && Verify25519.Accepts(sig, SIGN_PREFIX + Payload(f).value, KeyFor(cfg.keys, f.keyId).value.key)
  {
    LicenseLaws.AcceptedIff(Some(text), Some(cfg), Some(hal), mark);
    var bin := Binary(text).value;
    sig := bin[PAYLOAD_LEN..];
    PackParsed(bin);
    assert bin == bin[..PAYLOAD_LEN] + sig;
    Mint.EncodersAgree(bin);
    Base32Laws.StrictDecoding(text, BLOB_BIN_LEN, BLOB_BIN_LEN, bin);
  }

  // --------------------------------------------------------------- fingerprint

  /** fingerprint; None for a ValueError. */
  method FingerprintOf(segments: seq<seq<u8>>) returns (digest: Option<seq<u8>>)
    requires 8 * |Fingerprint.Preimage(segments)| < TWO_64
    ensures digest == if Fingerprint.AllShort(segments) then Some(Sha256.Sha256(Fingerprint.Preimage(segments))) else None
  {
    var parts: seq<seq<u8>> := [Fingerprint.DOMAIN];
    Padding.FlattenSnoc(parts, 0);
    for i := 0 to |segments|
      invariant Fingerprint.AllShort(segments[..i])
      invariant forall k :: 0 <= k < |parts| ==> |parts[k]| < TWO_64
      invariant Padding.Flatten(parts) == Fingerprint.Preimage(segments[..i])
    {
      if |segments[i]| > ID_SEGMENT_MAX {
        return None;
      }
      AddSegment(parts, segments, i);
      parts := parts + [[|segments[i]|]] + [segments[i]];
    }
    assert segments[..|segments|] == segments;
    var d := Sha256.HashParts(parts);
    digest := Some(d);
  }

  lemma AddSegment(parts: seq<seq<u8>>, segments: seq<seq<u8>>, i: nat)
    requires i < |segments| && |segments[i]| <= ID_SEGMENT_MAX && Fingerprint.AllShort(segments[..i])
    requires Padding.Flatten(parts) == Fingerprint.Preimage(segments[..i])
    ensures Fingerprint.AllShort(segments[..i + 1])
    ensures Padding.Flatten(parts + [[|segments[i]|]] + [segments[i]]) == Fingerprint.Preimage(segments[..i + 1])
  {
    var s := segments[i];
    var one := parts + [[|s|]];
    var two := one + [s];
    Padding.FlattenSnoc(one, |parts|);
    Padding.FlattenSnoc(two, |one|);
    assert one[..|parts|] == parts && one[..|one|] == one && two[..|one|] == one && two[..|two|] == two;
    assert segments[..i + 1] == segments[..i] + [s];
    Fingerprint.FramedSnoc(segments[..i], s);
  }

  /** The device computes the same fingerprint from a platform that lists the same segments, if
      they are at least one and at most 64. */
  lemma FingerprintsAgree(answers: seq<Answer>, hal: Hal, segments: seq<seq<u8>>)
    requires hal.segments == Some(answers) && 0 < |answers| == |segments| <= ID_SEGMENT_COUNT_MAX
    requires Fingerprint.AllShort(segments)
    requires forall k :: 0 <= k < |answers| ==> answers[k] == Answer(OK, segments[k])
    ensures Fingerprint.Outcome(Some(hal)) == (OK, Sha256.Sha256(Fingerprint.Preimage(segments)))
  {
    Fingerprint.EnumeratesAll(answers, 0);
    var n := |answers|;
    assert seq(n, k requires 0 <= k < n => answers[0 + k].bytes) == segments;
  }

  // ---------------------------------------------------------------- reported ids

  /** A device id reported in any spelling of its encoding is read back by the minter, and the
      device accepts it as its own. */
  lemma ReportedIdIsItsOwn(hal: Hal, digest: seq<u8>, text: seq<u8>)
    requires Fingerprint.Outcome(Some(hal)) == (OK, digest)
    requires Base32.Canon(text) == Base32.Encode(digest[..DEVICE_ID_LEN])
    ensures Mint.Strict(text, DEVICE_ID_LEN) == Some(digest[..DEVICE_ID_LEN])
    ensures DeviceStatus(digest[..DEVICE_ID_LEN], hal) == OK
  {
    var v := Base32.EncodeValues(digest[..DEVICE_ID_LEN]);
    assert text[..|text|] == text;
    Base32Laws.SpelledReads(text, |text|, v);
    Base32Laws.EncodedValues(v, digest[..DEVICE_ID_LEN]);
  }

  /** The whole way: the device shows its id, the customer reports it in any spelling, the vendor
      mints for it, and the blob verifies on that device with the fields that were issued. */
  lemma ReportMintVerify(hal: Hal, digest: seq<u8>, text: seq<u8>, f: Fields,
                         sign: seq<u8> -> seq<u8>, verify: (seq<u8>, seq<u8>) -> bool, pk: seq<u8>, cfg: Config, mark: u32)
    requires Fingerprint.Outcome(Some(hal)) == (OK, digest)
    requires Base32.Canon(text) == Base32.Encode(digest[..DEVICE_ID_LEN])
    requires Mint.Strict(text, DEVICE_ID_LEN) == Some(f.deviceId) && f.InRange()
    requires ArgumentsOk(Some([]), Some(cfg), Some(hal))
    requires cfg.family == f.family && KeyFor(cfg.keys, f.keyId) == Some(PubKey(f.keyId, pk))
    requires f.serial !in cfg.revokedSerials && LicenseLaws.Timely(AsLicense(f), cfg, hal, mark)
    requires SignsWell(sign, verify, pk, SIGN_PREFIX + Payload(f).value)
    requires f.notBefore == 0 || f.notAfter == 0 || f.notBefore <= f.notAfter
    ensures var blob := IssueBlob(f, sign, verify);
      && blob.Some? && |blob.value| == BLOB_STR_LEN
      && StatusOf(blob, Some(cfg), Some(hal), mark) == OK
      && LicenseOf(blob, Some(cfg), Some(hal), mark) == AsLicense(f).(checked := CheckedBy(cfg, hal))
  {
    ReportedIdIsItsOwn(hal, digest, text);
    MintThenVerify(f, sign, verify, pk, cfg, hal, mark);
  }
}
