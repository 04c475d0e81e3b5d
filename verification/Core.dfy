/** The data of include/vectilicense/vectilicense.h and the small helpers of core/vl_core.c. */
module Core {
  import opened Words
  import opened Wrappers
  import opened Digits
  import opened LittleEndian
  import opened Bits
  import Base32
  import ShiftRegister

  datatype Status =
    | OK
    | INVALID_ARG
    | BUFFER_TOO_SMALL
    | BAD_FORMAT
    | BAD_MAGIC
    | BAD_VERSION
    | BAD_FAMILY
    | UNKNOWN_KEY
    | BAD_SIGNATURE
    | DEVICE_MISMATCH
    | NOT_YET_VALID
    | EXPIRED
    | REVOKED
    | CLOCK_ROLLBACK
    | NO_CLOCK
    | PLATFORM
    | NO_MORE_SEGMENTS
    | NOT_FOUND
    | INTERNAL

  const MAGIC: u8 := 0x56
  const FORMAT_VERSION: u8 := 0x01
  const PAYLOAD_LEN: nat := 36
  const BLOB_BIN_LEN: nat := 100
  const BLOB_STR_LEN: nat := 160
  const FINGERPRINT_LEN: nat := 32
  const DEVICE_ID_LEN: nat := 16
  const DEVICE_ID_STR_LEN: nat := 26
  const ID_SEGMENT_MAX: nat := 255
  const ID_SEGMENT_COUNT_MAX: nat := 64

  /** What one callback to read_id_segment answers: a status and the bytes it claims to have
      written. */
  datatype Answer = Answer(status: Status, bytes: seq<u8>)

  datatype Reading = Reading(status: Status, now: u32)

  /** The platform during one call; None for a callback that is NULL. Segments past the given
      answers are answered with NO_MORE_SEGMENTS. The stored mark itself is not part of it. */
  datatype Hal = Hal(
    segments: Option<seq<Answer>>,
    clock: Option<Reading>,
    hwmLoad: Option<Status>,
    hwmStore: Option<Status>)

  datatype PubKey = PubKey(keyId: u8, key: seq<u8>)

  /** An empty list stands for NULL or a count of 0. */
  datatype Config = Config(
    keys: seq<PubKey>,
    family: u8,
    revokedSerials: seq<u32>,
    requireClock: bool,
    enforceHwm: bool)
  {
    ghost predicate Valid()
    {
      forall k :: 0 <= k < |keys| ==> |keys[k].key| == 32
    }
  }

  /** The bits of vl_license_t.checked. */
  datatype Checked = Checked(signature: bool, device: bool, time: bool, revocation: bool, hwm: bool)

  datatype License = License(
    version: u8,
    keyId: u8,
    family: u8,
    features: u32,
    deviceId: seq<u8>,
    notBefore: u32,
    notAfter: u32,
    serial: u32,
    checked: Checked)

  const NOTHING: Checked := Checked(false, false, false, false, false)

  const ZERO_ID: seq<u8> := [0, 0, 0, 0, 0, 0, 0, 0, 0, 0, 0, 0, 0, 0, 0, 0]

  const ZERO_LICENSE: License := License(0, 0, 0, 0, ZERO_ID, 0, 0, 0, NOTHING)

  // ------------------------------------------------------------------- fields

  lemma ByteShifts()
    ensures Pow(2, 8) == 256 && Pow(2, 16) == 0x1_0000 && Pow(2, 24) == 0x100_0000 && Pow(2, 32) == TWO_32
  {
    Powers();
    PowAdd(2, 16, 8);
    ShiftRegister.WidthPower();
  }

  /** Bytes joined by shifting are their sum. */
  lemma JoinAbove(low: int, a: u8, k: nat)
    requires k <= 24 && 0 <= low < Pow(2, k)
    ensures 0 <= a * Pow(2, k) && low + a * Pow(2, k) < 256 * Pow(2, k)
    ensures Or(low, a * Pow(2, k), 32) == low + a * Pow(2, k)
  {
    var w := Pow(2, k);
    MulMono(0, a, w);
    MulMono(a, 255, w);
    ByteShifts();
    PowGrows(2, k, 24);
    OrSymmetric(low, a * w, 32);
    OrDisjoint(a, low, k, 32);
  }

  /** rd_le32 */
  method ReadLe32(p: seq<u8>) returns (v: u32)
    requires |p| >= 4
    ensures v == Le(p[..4])
  {
    var a: int, b: int, c: int, d: int := p[0], p[1], p[2], p[3];
    JoinFour(a, b, c, d);
    LeFour(p[..4]);
    v := Or(Or(Or(a, b * 256, 32), c * 0x1_0000, 32), d * 0x100_0000, 32);
  }

  lemma JoinFour(a: u8, b: u8, c: u8, d: u8)
    ensures var v := Or(Or(Or(a, (b as int) * 256, 32), (c as int) * 0x1_0000, 32), (d as int) * 0x100_0000, 32);
      0 <= v < TWO_32 && v == a + 256 * (b + 256 * (c + 256 * (d as int)))
  {
    ByteShifts();
    JoinAbove(a, b, 8);
    var x: int := a + (b as int) * 256;
    JoinAbove(x, c, 16);
    var y: int := x + (c as int) * 0x1_0000;
    JoinAbove(y, d, 24);
  }

  lemma LeFour(s: seq<u8>)
    requires |s| == 4
    ensures Le(s) == s[0] + 256 * (s[1] + 256 * (s[2] + 256 * (s[3] as int)))
  {
    LeFirst(s);
    LeFirst(s[1..]);
    LeFirst(s[2..]);
    LeFirst(s[3..]);
    assert s[1..][1..] == s[2..] && s[2..][1..] == s[3..] && s[3..][1..] == [];
    assert Le([]) == 0;
  }

  /** vl_has_feature: bit number `bit` of the features, 0 past bit 31 and for no licence. */
  function HasFeature(lic: Option<License>, bit: nat): (r: int)
    ensures r == 1 <==> lic.Some? && bit <= 31 && BitOf(lic.value.features, bit) == 1
    ensures r == 0 || r == 1
  {
    if lic.None? || bit > 31 then 0
    else
      FeatureBit(lic.value.features, bit);
      And(Shr(lic.value.features, Pow2(bit)), 1, 32)
  }

  lemma FeatureBit(features: u32, bit: nat)
    ensures And(Shr(features, Pow2(bit)), 1, 32) == BitOf(features, bit)
  {
    ShiftedBit(features, bit);
    ShrSmaller(features, Pow2(bit));
    ByteShifts();
    assert Pow(2, 1) == 2;
    AndMask(Shr(features, Pow2(bit)), 1, 32);
  }

  // ------------------------------------------------------------------ searches

  ghost predicate IsFirstKey(keys: seq<PubKey>, keyId: u8, i: nat)
  {
    && i < |keys| && keys[i].keyId == keyId
    && forall k :: 0 <= k < i ==> keys[k].keyId != keyId
  }

  /** The first key with a key id. */
  function KeyFor(keys: seq<PubKey>, keyId: u8): Option<PubKey>
  {
    if keys == [] then None
    else if keys[0].keyId == keyId then Some(keys[0])
    else KeyFor(keys[1..], keyId)
  }

  lemma {:induction false} FirstKeyIs(keys: seq<PubKey>, keyId: u8, i: nat)
    requires IsFirstKey(keys, keyId, i)
    ensures KeyFor(keys, keyId) == Some(keys[i])
    decreases i
  {
    if i > 0 {
      assert keys[0].keyId != keyId;
      forall k | 0 <= k < i - 1
        ensures keys[1..][k].keyId != keyId
      {
        assert keys[1..][k] == keys[k + 1];
      }
      FirstKeyIs(keys[1..], keyId, i - 1);
    }
  }

  lemma {:induction false} NoKeyIs(keys: seq<PubKey>, keyId: u8)
    ensures KeyFor(keys, keyId).None? <==> forall k :: 0 <= k < |keys| ==> keys[k].keyId != keyId
    decreases |keys|
  {
    if keys != [] {
      NoKeyIs(keys[1..], keyId);
      assert forall k :: 0 <= k < |keys| - 1 ==> keys[1..][k] == keys[k + 1];
      assert forall k :: 1 <= k < |keys| ==> keys[k] == keys[1..][k - 1];
    }
  }

  method FindKey(cfg: Config, keyId: u8) returns (key: Option<PubKey>)
    ensures key == KeyFor(cfg.keys, keyId)
    ensures key.None? <==> forall k :: 0 <= k < |cfg.keys| ==> cfg.keys[k].keyId != keyId
    ensures key.Some? ==> exists i: nat :: IsFirstKey(cfg.keys, keyId, i) && key.value == cfg.keys[i]
  {
    for i := 0 to |cfg.keys|
      invariant forall k :: 0 <= k < i ==> cfg.keys[k].keyId != keyId
    {
      if cfg.keys[i].keyId == keyId {
        FirstKeyIs(cfg.keys, keyId, i);
        return Some(cfg.keys[i]);
      }
    }
    NoKeyIs(cfg.keys, keyId);
    key := None;
  }

  method IsRevoked(cfg: Config, serial: u32) returns (revoked: bool)
    ensures revoked <==> serial in cfg.revokedSerials
  {
    for i := 0 to |cfg.revokedSerials|
      invariant serial !in cfg.revokedSerials[..i]
    {
      if cfg.revokedSerials[i] == serial {
        return true;
      }
    }
    revoked := false;
  }

  // ----------------------------------------------------------------- device id

  /** vl_encode_device_id: never fails but for want of room. */
  method EncodeDeviceId(fingerprint: seq<u8>, out: array<u8>) returns (status: Status)
    requires |fingerprint| == FINGERPRINT_LEN
    modifies out
    ensures status == if out.Length < DEVICE_ID_STR_LEN + 1 then BUFFER_TOO_SMALL else OK
    ensures status == OK ==>
      && out[..DEVICE_ID_STR_LEN] == Base32.Encode(fingerprint[..DEVICE_ID_LEN])
      && out[DEVICE_ID_STR_LEN] == Base32.NUL
    ensures status != OK ==> out[..] == old(out[..])
  {
    if out.Length < DEVICE_ID_STR_LEN + 1 {
      return BUFFER_TOO_SMALL;
    }
    var n := Base32.EncodeText(fingerprint[..DEVICE_ID_LEN], out);
    if n != DEVICE_ID_STR_LEN {
      return INTERNAL;
    }
    status := OK;
  }
}
