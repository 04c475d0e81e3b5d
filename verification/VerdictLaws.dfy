/** The verdict of vl_verify on the bytes of a blob: which check comes when, what it looks at, and
    which code it answers. */
module VerdictLaws {
  import opened Words
  import opened Wrappers
  import opened LittleEndian
  import opened Core
  import opened Verify
  import opened Fingerprint
  import Base32
  import Base32Laws
  import LicenseLaws
  import Sha256
  import Verify25519

  // -------------------------------------------------------------------- the blob

  /** Four bytes of a blob as a number, the lowest first. */
  function Number(bin: seq<u8>, at: nat): int
    requires at + 4 <= |bin|
  {
    bin[at] + 0x100 * (bin[at + 1] as int) + 0x1_0000 * (bin[at + 2] as int) + 0x100_0000 * (bin[at + 3] as int)
  }

  lemma NumberIs(bin: seq<u8>, at: nat)
    requires at + 4 <= |bin|
    ensures Le(bin[at..at + 4]) == Number(bin, at)
  {
    LeFour(bin[at..at + 4]);
  }

  /** Where the fields of a blob are. */
  lemma FieldsAre(bin: seq<u8>)
    requires |bin| == 100
    ensures var lic := Parsed(bin);
      && lic.version == bin[1] && lic.keyId == bin[2] && lic.family == bin[3]
      && lic.features == Number(bin, 4) && lic.deviceId == bin[8..24]
      && lic.notBefore == Number(bin, 24) && lic.notAfter == Number(bin, 28) && lic.serial == Number(bin, 32)
  {
    NumberIs(bin, 4);
    NumberIs(bin, 24);
    NumberIs(bin, 28);
    NumberIs(bin, 32);
  }

  /** What is signed: a text, a NUL, and the first 36 bytes. */
  lemma SignedMessageIs(bin: seq<u8>)
    requires |bin| == 100
    ensures SignedMessage(bin) == Ascii("vectilicense:v1") + [0] + bin[..36]
  {
  }

  // ------------------------------------------------------------------ the checks

  /** The signature, under the first key with the blob's key id. */
  ghost predicate SignedByFirst(bin: seq<u8>, keys: seq<PubKey>)
    requires |bin| == 100
  {
    exists k: nat :: IsFirstKey(keys, bin[2], k)
      && Verify25519.Accepts(bin[36..], Ascii("vectilicense:v1") + [0] + bin[..36], keys[k].key)
  }

  /** Does the platform list these segments, and is their hash the blob's device id? */
  ghost predicate BoundTo(bin: seq<u8>, hal: Hal, segments: seq<seq<u8>>)
    requires |bin| == 100
  {
    && hal.segments.Some? && Enumerate(hal.segments.value, 0) == Listed(segments) && segments != []
    && bin[8..24] == Sha256.Sha256(Preimage(segments))[..16]
  }

  /** Does check n fail? The checks on a decoded blob are numbered in their order. */
  ghost predicate Fails(n: nat, bin: seq<u8>, cfg: Config, hal: Hal, mark: u32)
    requires |bin| == 100 && hal.segments.Some?
  {
    match n
    case 0 => bin[0] != 0x56
    case 1 => bin[1] != 0x01
    case 2 => bin[3] != cfg.family
    case 3 => forall k :: 0 <= k < |cfg.keys| ==> cfg.keys[k].keyId != bin[2]
    case 4 => !SignedByFirst(bin, cfg.keys)
    case 5 => Enumerate(hal.segments.value, 0).Refused?
    case 6 => Enumerate(hal.segments.value, 0) == Listed([])
    case 7 => forall segments :: !BoundTo(bin, hal, segments)
    case 8 => Number(bin, 32) in cfg.revokedSerials
    case 9 => hal.clock.None? && cfg.requireClock
    case 10 => hal.clock.Some? && hal.clock.value.status != OK
    case 11 => hal.clock.Some? && hal.clock.value.now < Number(bin, 24)
    case 12 => hal.clock.Some? && 0 < Number(bin, 28) < hal.clock.value.now
    case 13 => hal.clock.Some? && cfg.enforceHwm && hal.hwmLoad != Some(OK)
    case 14 => hal.clock.Some? && cfg.enforceHwm && hal.clock.value.now < mark
    case 15 => hal.clock.Some? && cfg.enforceHwm && mark < hal.clock.value.now && hal.hwmStore != Some(OK)
    case _ => false
  }

  /** What check n answers when it is the first to fail. */
  function Code(n: nat, hal: Hal): Status
    requires hal.segments.Some?
  {
    match n
    case 0 => BAD_MAGIC
    case 1 => BAD_VERSION
    case 2 => BAD_FAMILY
    case 3 => UNKNOWN_KEY
    case 4 => BAD_SIGNATURE
    case 5 =>
      (match Enumerate(hal.segments.value, 0)
       case Refused(status) => status
       case Listed(_) => OK)
    case 6 => PLATFORM
    case 7 => DEVICE_MISMATCH
    case 8 => REVOKED
    case 9 => NO_CLOCK
    case 10 => PLATFORM
    case 11 => NOT_YET_VALID
    case 12 => EXPIRED
    case 13 => PLATFORM
    case 14 => CLOCK_ROLLBACK
    case 15 => PLATFORM
    case _ => OK
  }

  /** No check before number n fails. */
  ghost predicate Passes(n: nat, bin: seq<u8>, cfg: Config, hal: Hal, mark: u32)
    requires |bin| == 100 && hal.segments.Some?
  {
    forall k: nat :: k < n ==> !Fails(k, bin, cfg, hal, mark)
  }

  /** Check number n is the first to fail; 16 when none does. */
  ghost predicate IsFirstFailure(n: nat, bin: seq<u8>, cfg: Config, hal: Hal, mark: u32)
    requires |bin| == 100 && hal.segments.Some?
  {
    Passes(n, bin, cfg, hal, mark) && (n == 16 || Fails(n, bin, cfg, hal, mark))
  }

  lemma HeaderIs(bin: seq<u8>, cfg: Config, hal: Hal, mark: u32)
    requires |bin| == 100 && hal.segments.Some?
    ensures HeaderStatus(bin, cfg)
         == if Fails(0, bin, cfg, hal, mark) then BAD_MAGIC
            else if Fails(1, bin, cfg, hal, mark) then BAD_VERSION
            else if Fails(2, bin, cfg, hal, mark) then BAD_FAMILY
            else if Fails(3, bin, cfg, hal, mark) then UNKNOWN_KEY
            else OK
  {
    NoKeyIs(cfg.keys, bin[2]);
  }

  /** The key found is the first with its id. */
  lemma {:induction false} FirstKeyOf(keys: seq<PubKey>, keyId: u8) returns (i: nat)
    requires KeyFor(keys, keyId).Some?
    ensures IsFirstKey(keys, keyId, i) && KeyFor(keys, keyId) == Some(keys[i])
    decreases |keys|
  {
    if keys[0].keyId == keyId {
      i := 0;
    } else {
      var j := FirstKeyOf(keys[1..], keyId);
      i := j + 1;
      assert forall k :: 1 <= k < |keys| ==> keys[k] == keys[1..][k - 1];
    }
  }

  lemma SignatureIs(bin: seq<u8>, keys: seq<PubKey>)
    requires |bin| == 100 && KeyFor(keys, bin[2]).Some?
    ensures Signed(bin, KeyFor(keys, bin[2]).value.key) <==> SignedByFirst(bin, keys)
  {
    var i := FirstKeyOf(keys, bin[2]);
    SignedMessageIs(bin);
    forall k: nat | IsFirstKey(keys, bin[2], k)
      ensures k == i
    {
    }
  }

  lemma DeviceIs(bin: seq<u8>, cfg: Config, hal: Hal, mark: u32)
    requires |bin| == 100 && hal.segments.Some?
    ensures DeviceStatus(bin[8..24], hal)
         == if Fails(5, bin, cfg, hal, mark) then Code(5, hal)
            else if Fails(6, bin, cfg, hal, mark) then PLATFORM
            else if Fails(7, bin, cfg, hal, mark) then DEVICE_MISMATCH
            else OK
    ensures Fails(5, bin, cfg, hal, mark) ==> Code(5, hal) != OK
  {
    EnumeratesShort(hal.segments.value, 0);
    if Enumerate(hal.segments.value, 0).Listed? {
      var segments := Enumerate(hal.segments.value, 0).segments;
      assert BoundTo(bin, hal, segments) <==> segments != [] && bin[8..24] == Sha256.Sha256(Preimage(segments))[..16];
    }
  }

  lemma TimeIs(bin: seq<u8>, cfg: Config, hal: Hal, mark: u32)
    requires |bin| == 100 && hal.segments.Some?
    requires cfg.enforceHwm ==> hal.clock.Some? && hal.hwmLoad.Some? && hal.hwmStore.Some?
    ensures TimeStatus(Parsed(bin), cfg, hal, mark)
         == if Fails(9, bin, cfg, hal, mark) then NO_CLOCK
            else if Fails(10, bin, cfg, hal, mark) then PLATFORM
            else if Fails(11, bin, cfg, hal, mark) then NOT_YET_VALID
            else if Fails(12, bin, cfg, hal, mark) then EXPIRED
            else if Fails(13, bin, cfg, hal, mark) then PLATFORM
            else if Fails(14, bin, cfg, hal, mark) then CLOCK_ROLLBACK
            else if Fails(15, bin, cfg, hal, mark) then PLATFORM
            else OK
  {
    FieldsAre(bin);
  }

  /** A platform and a configuration that vl_verify does not refuse as arguments. */
  predicate Usable(cfg: Config, hal: Hal)
  {
    && cfg.keys != [] && hal.segments.Some?
    && (cfg.enforceHwm ==> hal.clock.Some? && hal.hwmLoad.Some? && hal.hwmStore.Some?)
  }

  lemma LaterAre(bin: seq<u8>, cfg: Config, hal: Hal, mark: u32)
    requires |bin| == 100 && Usable(cfg, hal) && HeaderStatus(bin, cfg) == OK
    ensures BinStatus(bin, cfg, hal, mark)
         == if Fails(4, bin, cfg, hal, mark) then BAD_SIGNATURE
            else if DeviceStatus(bin[8..24], hal) != OK then DeviceStatus(bin[8..24], hal)
            else if Fails(8, bin, cfg, hal, mark) then REVOKED
            else TimeStatus(Parsed(bin), cfg, hal, mark)
  {
    SignatureIs(bin, cfg.keys);
    FieldsAre(bin);
  }

  /** The answer is the code of the first check that fails. */
  lemma FirstFailureDecides(n: nat, bin: seq<u8>, cfg: Config, hal: Hal, mark: u32)
    requires |bin| == 100 && Usable(cfg, hal) && IsFirstFailure(n, bin, cfg, hal, mark)
    ensures BinStatus(bin, cfg, hal, mark) == Code(n, hal)
  {
    HeaderIs(bin, cfg, hal, mark);
    if n >= 4 {
      LaterAre(bin, cfg, hal, mark);
      DeviceIs(bin, cfg, hal, mark);
      TimeIs(bin, cfg, hal, mark);
    }
  }

  /** Some check is the first to fail, or none does. */
  lemma {:induction false} FirstFailure(n: nat, bin: seq<u8>, cfg: Config, hal: Hal, mark: u32) returns (k: nat)
    requires |bin| == 100 && hal.segments.Some? && n <= 16 && Passes(n, bin, cfg, hal, mark)
    ensures k <= 16 && IsFirstFailure(k, bin, cfg, hal, mark)
    decreases 16 - n
  {
    k := n;
    if n < 16 && !Fails(n, bin, cfg, hal, mark) {
      k := FirstFailure(n + 1, bin, cfg, hal, mark);
    }
  }

  // ----------------------------------------------------------------- the verdict

  /** A text of at most 1024 characters spells these 100 bytes. */
  predicate Spells(text: seq<u8>, bin: seq<u8>)
  {
    |bin| == 100 && |text| <= 1024 && Base32.Canon(text) == Base32.Encode(bin)
  }

  lemma BinaryIs(text: seq<u8>, bin: seq<u8>)
    ensures Binary(text) == Some(bin) <==> Spells(text, bin)
  {
    Base32Laws.StrictDecoding(text, 100, 100, bin);
  }

  /** Every call is answered with the code of the first of eighteen checks that fails: the
      arguments, the spelling, and the sixteen above. */
  lemma VerdictIs(blob: Option<seq<u8>>, cfg: Option<Config>, hal: Option<Hal>, mark: u32) returns (bin: seq<u8>, n: nat)
    ensures blob.None? || cfg.None? || hal.None? || !Usable(cfg.value, hal.value) ==>
      StatusOf(blob, cfg, hal, mark) == INVALID_ARG
    ensures blob.Some? && cfg.Some? && hal.Some? && Usable(cfg.value, hal.value) ==>
      if exists b :: Spells(blob.value, b) then
        Spells(blob.value, bin) && IsFirstFailure(n, bin, cfg.value, hal.value, mark)
          && StatusOf(blob, cfg, hal, mark) == Code(n, hal.value)
      else StatusOf(blob, cfg, hal, mark) == BAD_FORMAT
  {
    bin, n := [], 0;
    if blob.Some? && cfg.Some? && hal.Some? && Usable(cfg.value, hal.value) {
      if b :| Spells(blob.value, b) {
        bin := b;
        BinaryIs(blob.value, bin);
        n := FirstFailure(0, bin, cfg.value, hal.value, mark);
        FirstFailureDecides(n, bin, cfg.value, hal.value, mark);
      } else if Binary(blob.value).Some? {
        BinaryIs(blob.value, Binary(blob.value).value);
      }
    }
  }

  /** A refusal hands nothing back and leaves the stored mark alone. */
  lemma RefusedIsBlank(blob: Option<seq<u8>>, cfg: Option<Config>, hal: Option<Hal>, mark: u32)
    requires StatusOf(blob, cfg, hal, mark) != OK
    ensures var lic := LicenseOf(blob, cfg, hal, mark);
      && lic.version == lic.keyId == lic.family == lic.features == 0
      && lic.notBefore == lic.notAfter == lic.serial == 0
      && |lic.deviceId| == 16 && (forall k :: 0 <= k < 16 ==> lic.deviceId[k] == 0)
      && !lic.checked.signature && !lic.checked.device && !lic.checked.time
      && !lic.checked.revocation && !lic.checked.hwm
    ensures MarkAfter(blob, cfg, hal, mark) == mark
  {
  }

  /** An acceptance hands the blob's fields back, and says which checks were made: the time only
      with a clock, the deny-list only when there is one, the mark only when it is enforced, and
      the mark becomes the clock's reading. */
  lemma AcceptedReports(text: seq<u8>, bin: seq<u8>, cfg: Config, hal: Hal, mark: u32)
    requires StatusOf(Some(text), Some(cfg), Some(hal), mark) == OK && Spells(text, bin)
    ensures var lic := LicenseOf(Some(text), Some(cfg), Some(hal), mark);
      && lic.version == 1 && lic.keyId == bin[2] && lic.family == bin[3] == cfg.family
      && lic.features == Number(bin, 4) && lic.deviceId == bin[8..24]
      && lic.notBefore == Number(bin, 24) && lic.notAfter == Number(bin, 28) && lic.serial == Number(bin, 32)
      && lic.checked.signature && lic.checked.device && (lic.checked.time <==> hal.clock.Some?)
      && (lic.checked.revocation <==> cfg.revokedSerials != []) && (lic.checked.hwm <==> cfg.enforceHwm)
    ensures hal.clock.Some? && cfg.enforceHwm ==>
      MarkAfter(Some(text), Some(cfg), Some(hal), mark) == hal.clock.value.now
    ensures !cfg.enforceHwm ==> MarkAfter(Some(text), Some(cfg), Some(hal), mark) == mark
  {
    BinaryIs(text, bin);
    FieldsAre(bin);
    LicenseLaws.AcceptedIff(Some(text), Some(cfg), Some(hal), mark);
  }

  /** An accepted licence is bound to the platform: its device id is the hash of the segments that
      the platform lists. */
  lemma AcceptedIsBound(blob: Option<seq<u8>>, cfg: Option<Config>, hal: Option<Hal>, mark: u32)
      returns (segments: seq<seq<u8>>)
    requires StatusOf(blob, cfg, hal, mark) == OK
    ensures hal.Some? && hal.value.segments.Some?
    ensures Enumerate(hal.value.segments.value, 0) == Listed(segments) && segments != []
    ensures LicenseOf(blob, cfg, hal, mark).deviceId == Sha256.Sha256(Preimage(segments))[..16]
  {
    LicenseLaws.AcceptedIff(blob, cfg, hal, mark);
    var bin := Binary(blob.value).value;
    FieldsAre(bin);
    DeviceIs(bin, cfg.value, hal.value, mark);
    segments :| BoundTo(bin, hal.value, segments);
  }

  /** A licence that passes every check before that of the device, but is bound to another one, is
      refused as such. */
  lemma OtherDevice(text: seq<u8>, bin: seq<u8>, cfg: Config, hal: Hal, mark: u32, segments: seq<seq<u8>>)
    requires Usable(cfg, hal) && Spells(text, bin)
    requires bin[0] == 0x56 && bin[1] == 0x01 && bin[3] == cfg.family && SignedByFirst(bin, cfg.keys)
    requires Enumerate(hal.segments.value, 0) == Listed(segments) && segments != []
    requires bin[8..24] != Sha256.Sha256(Preimage(segments))[..16]
    ensures StatusOf(Some(text), Some(cfg), Some(hal), mark) == DEVICE_MISMATCH
  {
    BinaryIs(text, bin);
    FailsAtDevice(bin, cfg, hal, mark, segments);
    FirstFailureDecides(7, bin, cfg, hal, mark);
  }

  lemma FailsAtDevice(bin: seq<u8>, cfg: Config, hal: Hal, mark: u32, segments: seq<seq<u8>>)
    requires |bin| == 100 && hal.segments.Some?
    requires bin[0] == 0x56 && bin[1] == 0x01 && bin[3] == cfg.family && SignedByFirst(bin, cfg.keys)
    requires Enumerate(hal.segments.value, 0) == Listed(segments) && segments != []
    requires bin[8..24] != Sha256.Sha256(Preimage(segments))[..16]
    ensures IsFirstFailure(7, bin, cfg, hal, mark)
  {
    var i: nat :| IsFirstKey(cfg.keys, bin[2], i);
  }
}
