/** vl_verify: the decision whether a licence is good, and the clock's high-water mark. */
module Verify {
  import opened Words
  import opened Wrappers
  import opened LittleEndian
  import opened Core
  import Base32
  import Fingerprint
  import Verify25519
  import Util

  /** "vectilicense:v1" and a NUL */
  const SIGN_PREFIX: seq<u8> := [118, 101, 99, 116, 105, 108, 105, 99, 101, 110, 115, 101, 58, 118, 49, 0]

  /** The text that starts a block of memory, as far as the decoder may look. */
  ghost predicate Terminated(memory: seq<u8>)
  {
    |Base32.CString(memory)| < |memory| || |memory| > Base32.MAX_INPUT
  }

  // ------------------------------------------------------------- what is decided

  ghost predicate ArgumentsOk(blob: Option<seq<u8>>, cfg: Option<Config>, hal: Option<Hal>)
  {
    && blob.Some? && cfg.Some? && hal.Some?
    && cfg.value.keys != []
    && hal.value.segments.Some?
    && (cfg.value.enforceHwm ==> hal.value.clock.Some? && hal.value.hwmLoad.Some? && hal.value.hwmStore.Some?)
  }

  /** The fields of a decoded blob. */
  ghost function Parsed(bin: seq<u8>): License
    requires |bin| == BLOB_BIN_LEN
  {
    LeNatural(bin[4..8]);
    LeNatural(bin[24..28]);
    LeNatural(bin[28..32]);
    LeNatural(bin[32..36]);
    ByteShiftsFour();
    License(bin[1], bin[2], bin[3], Le(bin[4..8]), bin[8..24],
            Le(bin[24..28]), Le(bin[28..32]), Le(bin[32..36]), NOTHING)
  }

  lemma ByteShiftsFour()
    ensures Digits.Pow(256, 4) == TWO_32
  {
  }

  ghost function HeaderStatus(bin: seq<u8>, cfg: Config): Status
    requires |bin| == BLOB_BIN_LEN
  {
    if bin[0] != MAGIC then BAD_MAGIC
    else if bin[1] != FORMAT_VERSION then BAD_VERSION
    else if bin[3] != cfg.family then BAD_FAMILY
    else if KeyFor(cfg.keys, bin[2]).None? then UNKNOWN_KEY
    else OK
  }

  function SignedMessage(bin: seq<u8>): seq<u8>
    requires |bin| == BLOB_BIN_LEN
  {
    SIGN_PREFIX + bin[..PAYLOAD_LEN]
  }

  ghost predicate Signed(bin: seq<u8>, key: seq<u8>)
    requires |bin| == BLOB_BIN_LEN
  {
    Verify25519.Accepts(bin[PAYLOAD_LEN..], SignedMessage(bin), key)
  }

  ghost function DeviceStatus(deviceId: seq<u8>, hal: Hal): Status
  {
    var outcome := Fingerprint.Outcome(Some(hal));
    var status, digest := outcome.0, outcome.1;
    if status != OK then status
    else if |digest| < DEVICE_ID_LEN || digest[..DEVICE_ID_LEN] != deviceId then DEVICE_MISMATCH
    else OK
  }

  /** The clock is inside the licence's window, bounds included; 0 is no bound. */
  predicate InWindow(lic: License, now: u32)
  {
    (lic.notBefore == 0 || lic.notBefore <= now) && (lic.notAfter == 0 || now <= lic.notAfter)
  }

  function WindowStatus(lic: License, now: u32): Status
  {
    if lic.notBefore != 0 && now < lic.notBefore then NOT_YET_VALID
    else if lic.notAfter != 0 && now > lic.notAfter then EXPIRED
    else OK
  }

  ghost function MarkStatus(hal: Hal, now: u32, mark: u32): Status
    requires hal.hwmLoad.Some? && hal.hwmStore.Some?
  {
    if hal.hwmLoad.value != OK then PLATFORM
    else if now < mark then CLOCK_ROLLBACK
    else if now > mark && hal.hwmStore.value != OK then PLATFORM
    else OK
  }

  ghost function TimeStatus(lic: License, cfg: Config, hal: Hal, mark: u32): Status
    requires cfg.enforceHwm ==> hal.clock.Some? && hal.hwmLoad.Some? && hal.hwmStore.Some?
  {
    if hal.clock.None? then if cfg.requireClock then NO_CLOCK else OK
    else if hal.clock.value.status != OK then PLATFORM
    else if WindowStatus(lic, hal.clock.value.now) != OK then WindowStatus(lic, hal.clock.value.now)
    else if cfg.enforceHwm then MarkStatus(hal, hal.clock.value.now, mark)
    else OK
  }

  ghost function BinStatus(bin: seq<u8>, cfg: Config, hal: Hal, mark: u32): Status
    requires |bin| == BLOB_BIN_LEN
    requires cfg.enforceHwm ==> hal.clock.Some? && hal.hwmLoad.Some? && hal.hwmStore.Some?
  {
    if HeaderStatus(bin, cfg) != OK then HeaderStatus(bin, cfg)
    else if !Signed(bin, KeyFor(cfg.keys, bin[2]).value.key) then BAD_SIGNATURE
    else if DeviceStatus(bin[8..24], hal) != OK then DeviceStatus(bin[8..24], hal)
    else if Parsed(bin).serial in cfg.revokedSerials then REVOKED
    else TimeStatus(Parsed(bin), cfg, hal, mark)
  }

  ghost function Binary(text: seq<u8>): (bin: Option<seq<u8>>)
    ensures bin.Some? ==> |bin.value| == BLOB_BIN_LEN
  {
    Base32.Decoded(text, BLOB_BIN_LEN, BLOB_BIN_LEN)
  }

  /** The status: the first check that fails, in the documented order. */
  ghost function StatusOf(blob: Option<seq<u8>>, cfg: Option<Config>, hal: Option<Hal>, mark: u32): Status
  {
    if !ArgumentsOk(blob, cfg, hal) then INVALID_ARG
    else if Binary(blob.value).None? then BAD_FORMAT
    else BinStatus(Binary(blob.value).value, cfg.value, hal.value, mark)
  }

  ghost function CheckedBy(cfg: Config, hal: Hal): Checked
  {
    Checked(true, true, hal.clock.Some?, cfg.revokedSerials != [], hal.clock.Some? && cfg.enforceHwm)
  }

  /** The licence handed back: the fields of the blob, or zeros on any failure. */
  ghost function LicenseOf(blob: Option<seq<u8>>, cfg: Option<Config>, hal: Option<Hal>, mark: u32): License
  {
    if StatusOf(blob, cfg, hal, mark) != OK then ZERO_LICENSE
    else Parsed(Binary(blob.value).value).(checked := CheckedBy(cfg.value, hal.value))
  }

  /** The stored mark afterwards. */
  ghost function MarkAfter(blob: Option<seq<u8>>, cfg: Option<Config>, hal: Option<Hal>, mark: u32): u32
  {
    if StatusOf(blob, cfg, hal, mark) == OK && cfg.value.enforceHwm then hal.value.clock.value.now else mark
  }

  // ------------------------------------------------------------- how it is done

  /** The HAL's stored mark. A store that fails changes nothing. */
  class MarkStore {
    var mark: u32

    method Load(outcome: Status) returns (status: Status, value: u32)
      ensures status == outcome && (status == OK ==> value == mark)
    {
      status := outcome;
      value := if outcome == OK then mark else 0;
    }

    method Store(value: u32, outcome: Status) returns (status: Status)
      modifies this
      ensures status == outcome && mark == if status == OK then value else old(mark)
    {
      status := outcome;
      if outcome == OK {
        mark := value;
      }
    }
  }

  /** The caller's vl_license_t. */
  class LicenseSlot {
    var lic: License

    constructor ()
      ensures lic == ZERO_LICENSE
    {
      lic := ZERO_LICENSE;
    }
  }

  method Parse(bin: seq<u8>) returns (lic: License)
    requires |bin| == BLOB_BIN_LEN
    ensures lic == Parsed(bin)
  {
    var features := ReadLe32(bin[4..8]);
    var notBefore := ReadLe32(bin[24..28]);
    var notAfter := ReadLe32(bin[28..32]);
    var serial := ReadLe32(bin[32..36]);
    assert bin[4..8][..4] == bin[4..8] && bin[24..28][..4] == bin[24..28];
    assert bin[28..32][..4] == bin[28..32] && bin[32..36][..4] == bin[32..36];
    lic := License(bin[1], bin[2], bin[3], features, bin[8..24], notBefore, notAfter, serial, NOTHING);
  }

  method CheckHeader(bin: seq<u8>, cfg: Config) returns (status: Status, lic: License, key: Option<PubKey>)
    requires |bin| == BLOB_BIN_LEN
    ensures status == HeaderStatus(bin, cfg)
    ensures status == OK ==> lic == Parsed(bin) && key.Some? && key == KeyFor(cfg.keys, bin[2])
  {
    lic, key := ZERO_LICENSE, None;
    if bin[0] != MAGIC {
      return BAD_MAGIC, lic, key;
    }
    if bin[1] != FORMAT_VERSION {
      return BAD_VERSION, lic, key;
    }
    lic := Parse(bin);
    if lic.family != cfg.family {
      return BAD_FAMILY, lic, key;
    }
    key := FindKey(cfg, lic.keyId);
    status := if key.None? then UNKNOWN_KEY else OK;
  }

  method CheckSignature(bin: seq<u8>, key: seq<u8>) returns (ok: bool)
    requires |bin| == BLOB_BIN_LEN && |key| == 32
    ensures ok <==> Signed(bin, key)
  {
    var answer := Verify25519.Verify(bin[PAYLOAD_LEN..], SIGN_PREFIX + bin[..PAYLOAD_LEN], key);
    ok := answer != 0;
  }

  method CheckDevice(deviceId: seq<u8>, hal: Hal) returns (status: Status)
    requires |deviceId| == DEVICE_ID_LEN
    ensures status == DeviceStatus(deviceId, hal)
  {
    var fingerprint := new u8[FINGERPRINT_LEN](_ => 0);
    status := Fingerprint.ComputeFingerprint(Some(hal), fingerprint);
    if status != OK {
      return;
    }
    assert fingerprint[..][..DEVICE_ID_LEN] == fingerprint[..DEVICE_ID_LEN];
    var same := Util.CtEq(fingerprint[..DEVICE_ID_LEN], deviceId);
    if same == 0 {
      status := DEVICE_MISMATCH;
    }
  }

  method CheckMark(hal: Hal, now: u32, store: MarkStore) returns (status: Status)
    requires hal.hwmLoad.Some? && hal.hwmStore.Some?
    modifies store
    ensures status == MarkStatus(hal, now, old(store.mark))
    ensures store.mark == if status == OK then now else old(store.mark)
  {
    var loaded, mark := store.Load(hal.hwmLoad.value);
    if loaded != OK {
      return PLATFORM;
    }
    if now < mark {
      return CLOCK_ROLLBACK;
    }
    if now > mark {
      var stored := store.Store(now, hal.hwmStore.value);
      if stored != OK {
        return PLATFORM;
      }
    }
    status := OK;
  }

  method CheckTime(lic: License, cfg: Config, hal: Hal, store: MarkStore) returns (status: Status, checked: Checked)
    requires cfg.enforceHwm ==> hal.clock.Some? && hal.hwmLoad.Some? && hal.hwmStore.Some?
    modifies store
    ensures status == TimeStatus(lic, cfg, hal, old(store.mark))
    ensures store.mark == if status == OK && cfg.enforceHwm then hal.clock.value.now else old(store.mark)
    ensures status == OK ==>
      checked == lic.checked.(time := hal.clock.Some? || lic.checked.time,
                              hwm := (hal.clock.Some? && cfg.enforceHwm) || lic.checked.hwm)
  {
    checked := lic.checked;
    if hal.clock.None? {
      status := if cfg.requireClock then NO_CLOCK else OK;
      return;
    }
    if hal.clock.value.status != OK {
      return PLATFORM, checked;
    }
    var now := hal.clock.value.now;
    if lic.notBefore != 0 && now < lic.notBefore {
      return NOT_YET_VALID, checked;
    }
    if lic.notAfter != 0 && now > lic.notAfter {
      return EXPIRED, checked;
    }
    checked := checked.(time := true);
    status := OK;
    if cfg.enforceHwm {
      status := CheckMark(hal, now, store);
      if status == OK {
        checked := checked.(hwm := true);
      }
    }
  }

  /** The checks on a decoded blob. */
  method CheckBinary(bin: seq<u8>, cfg: Config, hal: Hal, store: MarkStore) returns (status: Status, lic: License)
    requires |bin| == BLOB_BIN_LEN && cfg.Valid()
    requires cfg.enforceHwm ==> hal.clock.Some? && hal.hwmLoad.Some? && hal.hwmStore.Some?
    modifies store
    ensures status == BinStatus(bin, cfg, hal, old(store.mark))
    ensures store.mark == if status == OK && cfg.enforceHwm then hal.clock.value.now else old(store.mark)
    ensures status == OK ==> lic == Parsed(bin).(checked := CheckedBy(cfg, hal))
  {
    var key;
    status, lic, key := CheckHeader(bin, cfg);
    if status != OK {
      return;
    }
    KeyIsValid(cfg, bin[2]);
    var signed := CheckSignature(bin, key.value.key);
    if !signed {
      status := BAD_SIGNATURE;
      return;
    }
    lic := lic.(checked := lic.checked.(signature := true));
    status := CheckDevice(lic.deviceId, hal);
    if status != OK {
      return;
    }
    lic := lic.(checked := lic.checked.(device := true));
    if cfg.revokedSerials != [] {
      var revoked := IsRevoked(cfg, lic.serial);
      if revoked {
        status := REVOKED;
        return;
      }
      lic := lic.(checked := lic.checked.(revocation := true));
    }
    var checked;
    status, checked := CheckTime(lic, cfg, hal, store);
    lic := lic.(checked := checked);
  }

  lemma {:induction false} KeyIsValid(cfg: Config, keyId: u8)
    requires cfg.Valid()
    ensures KeyFor(cfg.keys, keyId).Some? ==> |KeyFor(cfg.keys, keyId).value.key| == 32
    decreases |cfg.keys|
  {
    if cfg.keys != [] {
      KeyIsValid(cfg.(keys := cfg.keys[1..]), keyId);
    }
  }

  method VerifyLicense(blob: Option<seq<u8>>, cfg: Option<Config>, hal: Option<Hal>, store: MarkStore, out: LicenseSlot?)
      returns (status: Status)
    requires blob.Some? ==> Terminated(blob.value)
    requires cfg.Some? ==> cfg.value.Valid()
    modifies store, out
    ensures var text := if blob.None? then None else Some(Base32.CString(blob.value));
      && status == StatusOf(text, cfg, hal, old(store.mark))
      && store.mark == MarkAfter(text, cfg, hal, old(store.mark))
      && (out != null ==> out.lic == LicenseOf(text, cfg, hal, old(store.mark)))
  {
    if out != null {
      out.lic := ZERO_LICENSE;
    }
    if blob.None? || cfg.None? || hal.None? {
      return INVALID_ARG;
    }
    if cfg.value.keys == [] {
      return INVALID_ARG;
    }
    if hal.value.segments.None? {
      return INVALID_ARG;
    }
    if cfg.value.enforceHwm &&
       (hal.value.clock.None? || hal.value.hwmLoad.None? || hal.value.hwmStore.None?) {
      return INVALID_ARG;
    }
    var bin := new u8[BLOB_BIN_LEN](_ => 0);
    var decoded := Base32.DecodeText(blob.value, bin, BLOB_BIN_LEN);
    if decoded != BLOB_BIN_LEN {
      return BAD_FORMAT;
    }
    assert bin[..decoded] == bin[..];
    var lic;
    status, lic := CheckBinary(bin[..], cfg.value, hal.value, store);
    if status == OK && out != null {
      out.lic := lic;
    }
  }
}
