/** That the licence check can be passed: platforms, keys, signatures and blobs that it accepts. */
module Existence {
  import opened Words
  import opened Wrappers
  import opened Core
  import opened Verify
  import opened Issue
  import opened LicenseLaws
  import Base32
  import Mint
  import EdwardsGroup
  import Fingerprint
  import Sha256
  import Signature
  import Verify25519

  /** A platform with one empty identity segment. */
  function PlainHal(clock: Option<Reading>, hwm: Option<Status>): Hal
  {
    Hal(Some([Answer(OK, [])]), clock, hwm, hwm)
  }

  /** It has a fingerprint, whose first bytes are a device id. */
  lemma DeviceOf(hal: Hal) returns (deviceId: seq<u8>)
    requires hal.segments == Some([Answer(OK, [])])
    ensures |deviceId| == DEVICE_ID_LEN && DeviceStatus(deviceId, hal) == OK
  {
    FingerprintsAgree([Answer(OK, [])], hal, [[]]);
    var digest := Sha256.Sha256(Fingerprint.Preimage([[]]));
    deviceId := digest[..DEVICE_ID_LEN];
  }

  /** A signed payload, encoded. */
  lemma SignedBlob(f: Fields) returns (blob: seq<u8>, key: seq<u8>, sig: seq<u8>)
    requires EdwardsGroup.NamedFacts() && Signature.BaseHasOrderL() && f.InRange()
    ensures |key| == 32 && |sig| == 64 && Verify25519.Accepts(sig, SIGN_PREFIX + Payload(f).value, key)
    ensures |blob| <= Base32.MAX_INPUT && Base32.Canon(blob) == Mint.B32(Payload(f).value + sig)
  {
    key := Signature.BaseKey();
    sig := Signature.SomeSignature(key, SIGN_PREFIX + Payload(f).value);
    blob := Mint.B32(Payload(f).value + sig);
    BinaryText(Payload(f).value + sig);
  }

  /** For every licence, and every platform of its device on which it is timely, there is a key
      and a blob that verifies under it and gives the licence's fields back. */
  lemma EveryLicenceCanVerify(f: Fields, hal: Hal, mark: u32, requireClock: bool, enforceHwm: bool)
      returns (blob: seq<u8>, key: seq<u8>)
    requires EdwardsGroup.NamedFacts() && Signature.BaseHasOrderL()
    requires f.InRange() && DeviceStatus(f.deviceId, hal) == OK && hal.segments.Some?
    requires Timely(AsLicense(f), Config([PubKey(f.keyId, [])], f.family, [], requireClock, enforceHwm), hal, mark)
    ensures |key| == 32
    ensures var cfg := Config([PubKey(f.keyId, key)], f.family, [], requireClock, enforceHwm);
      var c := Call(Some(blob), Some(cfg), Some(hal));
      && cfg.Valid()
      && c.Status(mark) == OK && c.License(mark) == AsLicense(f).(checked := CheckedBy(cfg, hal))
  {
    var sig;
    blob, key, sig := SignedBlob(f);
    var cfg := Config([PubKey(f.keyId, key)], f.family, [], requireClock, enforceHwm);
    PlainConfigFits(f, key, hal, mark, cfg);
    SpelledCall(f, sig, key, blob, cfg, hal, mark);
  }

  /** The same as a call. */
  lemma SpelledCall(f: Fields, sig: seq<u8>, key: seq<u8>, text: seq<u8>, cfg: Config, hal: Hal, mark: u32)
    requires f.InRange() && |sig| == 64 && Fits(f, key, cfg, hal, mark)
    requires Verify25519.Accepts(sig, SIGN_PREFIX + Payload(f).value, key)
    requires |text| <= Base32.MAX_INPUT && Base32.Canon(text) == Mint.B32(Payload(f).value + sig)
    ensures var c := Call(Some(text), Some(cfg), Some(hal));
      c.Status(mark) == OK && c.License(mark) == AsLicense(f).(checked := CheckedBy(cfg, hal))
  {
    SpelledThenVerified(f, sig, key, text, cfg, hal, mark);
    Call(Some(text), Some(cfg), Some(hal)).Meaning(mark);
  }

  lemma PlainConfigFits(f: Fields, key: seq<u8>, hal: Hal, mark: u32, cfg: Config)
    requires f.InRange() && DeviceStatus(f.deviceId, hal) == OK && hal.segments.Some?
    requires cfg == Config([PubKey(f.keyId, key)], f.family, [], cfg.requireClock, cfg.enforceHwm)
    requires Timely(AsLicense(f), cfg, hal, mark)
    ensures Fits(f, key, cfg, hal, mark)
  {
  }

  /** Every window has a genuine licence on a platform whose mark works: the laws about runs and
      expiry speak of calls that exist. */
  lemma SomeCallIsReady(notBefore: u32, notAfter: u32) returns (c: Call)
    requires EdwardsGroup.NamedFacts() && Signature.BaseHasOrderL()
    requires notAfter == 0 || notBefore <= notAfter
    ensures Ready(c) && LicenseLaws.Fields(c).notBefore == notBefore && LicenseLaws.Fields(c).notAfter == notAfter
  {
    var hal := PlainHal(Some(Reading(OK, notBefore)), Some(OK));
    var deviceId := DeviceOf(hal);
    var f := Issue.Fields(0, 0, 0, deviceId, notBefore, notAfter, 0);
    var blob, key := EveryLicenceCanVerify(f, hal, 0, false, true);
    var cfg := Config([PubKey(0, key)], 0, [], false, true);
    c := Call(Some(blob), Some(cfg), Some(hal));
    c.Meaning(0);
    AcceptedIff(Some(blob), Some(cfg), Some(hal), 0);
  }
}
