/** bridge/vl_bridge.h: the licence in force, and the canonical text it is kept as. */
module Bridge {
  import opened Words
  import opened Wrappers
  import opened Core
  import opened Modular
  import opened Verify
  import Base32
  import Base32Laws
  import opened LicenseLaws
  import Mailbox
  import Padding

  // ------------------------------------------------------------- specification

  /** What the object says about the licence: status(), the fields, and blob(). */
  datatype State = State(status: Status, lic: License, blob: seq<u8>)
  {
    /** license(), feature(): nothing unless the licence is in force. */
    function InForce(): Option<License>
    {
      if status == OK then Some(lic) else None
    }

    function Feature(bit: nat): int
    {
      HasFeature(InForce(), bit)
    }
  }

  /** What is in the HAL's blob slot during begin; None for a callback that is NULL. */
  datatype Loaded = Loaded(status: Status, text: seq<u8>)

  const BLOB_STR_BUF_LEN: nat := 161

  ghost predicate IsEmpty(s: State)
  {
    s.lic == ZERO_LICENSE && s.blob == []
  }

  /** Nothing is shown of a licence that is not in force. */
  ghost predicate Tidy(s: State)
  {
    s.status == OK || IsEmpty(s)
  }

  /** What is shown of a licence in force: the one spelling of its 100 bytes. */
  ghost predicate Coherent(s: State)
  {
    s.status == OK ==>
      exists bin :: IsBinary(bin) && s.blob == Base32.Encode(bin) && s.lic.(checked := NOTHING) == Parsed(bin)
  }

  ghost predicate IsBinary(bin: seq<u8>)
  {
    |bin| == BLOB_BIN_LEN
  }

  /** The state after applying a text; kept folded. */
  ghost function Applied(text: seq<u8>, cfg: Option<Config>, hal: Option<Hal>, mark: u32): State
  {
    AppliedBy(Folds(), text, cfg, hal, mark)
  }

  ghost function AppliedBy(n: nat, text: seq<u8>, cfg: Option<Config>, hal: Option<Hal>, mark: u32): State
  {
    var status := StatusOf(Some(text), cfg, hal, mark);
    if n != 0 then AppliedBy(n - 1, text, cfg, hal, mark)
    else if status != OK then State(status, ZERO_LICENSE, [])
    else State(OK, LicenseOf(Some(text), cfg, hal, mark), Base32.Encode(Binary(text).value))
  }

  lemma {:induction false} UnfoldApplied(n: nat, text: seq<u8>, cfg: Option<Config>, hal: Option<Hal>, mark: u32)
    ensures AppliedBy(n, text, cfg, hal, mark) == AppliedBy(0, text, cfg, hal, mark)
  {
    if n != 0 {
      UnfoldApplied(n - 1, text, cfg, hal, mark);
    }
  }

  lemma AppliedMeans(text: seq<u8>, cfg: Option<Config>, hal: Option<Hal>, mark: u32)
    ensures var status := StatusOf(Some(text), cfg, hal, mark);
      Applied(text, cfg, hal, mark) == if status != OK then State(status, ZERO_LICENSE, [])
        else State(OK, LicenseOf(Some(text), cfg, hal, mark), Base32.Encode(Binary(text).value))
  {
    UnfoldApplied(Folds(), text, cfg, hal, mark);
  }

  /** The stored mark after applying a text. */
  ghost function MarkOf(text: seq<u8>, cfg: Option<Config>, hal: Option<Hal>, mark: u32): u32
  {
    Call(Some(text), cfg, hal).Next(mark)
  }

  /** Does begin get as far as applying what it loaded? */
  predicate Reaches(loaded: Option<Loaded>)
  {
    loaded.Some? && loaded.value.status == OK && |loaded.value.text| < BLOB_STR_BUF_LEN
  }

  function EarlyStatus(loaded: Option<Loaded>): Status
    requires !Reaches(loaded)
  {
    if loaded.None? then NOT_FOUND
    else if loaded.value.status != OK then loaded.value.status
    else PLATFORM
  }

  /** The state after begin: the early returns set only the status. */
  ghost function Begun(s: State, loaded: Option<Loaded>, cfg: Option<Config>, hal: Option<Hal>, mark: u32): State
  {
    if Reaches(loaded) then Applied(Base32.CString(loaded.value.text + [Base32.NUL]), cfg, hal, mark)
    else s.(status := EarlyStatus(loaded))
  }

  /** The stored mark after begin. */
  ghost function BegunMark(loaded: Option<Loaded>, cfg: Option<Config>, hal: Option<Hal>, mark: u32): u32
  {
    if Reaches(loaded) then MarkOf(Base32.CString(loaded.value.text + [Base32.NUL]), cfg, hal, mark) else mark
  }

  // ------------------------------------------------------------------ properties

  /** Applying a text always leaves the object tidy and coherent. */
  lemma AppliedIsCoherent(text: seq<u8>, cfg: Option<Config>, hal: Option<Hal>, mark: u32)
    ensures Tidy(Applied(text, cfg, hal, mark)) && Coherent(Applied(text, cfg, hal, mark))
  {
    var s := Applied(text, cfg, hal, mark);
    AppliedMeans(text, cfg, hal, mark);
    if s.status == OK {
      var bin := Binary(text).value;
      assert IsBinary(bin) && s.lic.(checked := NOTHING) == Parsed(bin);
    }
  }

  /** begin can leave a licence showing that is not in force: exactly when it returns early from a
      state in which one was showing. */
  lemma BeginKeepsTidy(s: State, loaded: Option<Loaded>, cfg: Option<Config>, hal: Option<Hal>, mark: u32)
    ensures Tidy(Begun(s, loaded, cfg, hal, mark)) <==> Reaches(loaded) || IsEmpty(s)
  {
    if Reaches(loaded) {
      AppliedIsCoherent(Base32.CString(loaded.value.text + [Base32.NUL]), cfg, hal, mark);
    }
  }

  /** Such a state: a licence was applied, then begin finds nothing stored. Its fields are not
      shown, since license() and feature() ask the status, but blob() shows its text. */
  lemma BeginLeavesBlob(text: seq<u8>, cfg: Option<Config>, hal: Option<Hal>, mark: u32)
    requires StatusOf(Some(text), cfg, hal, mark) == OK
    ensures var s := Begun(Applied(text, cfg, hal, mark), Some(Loaded(NOT_FOUND, [])), cfg, hal, mark);
      && s.status == NOT_FOUND && s.InForce().None? && (forall bit :: s.Feature(bit) == 0)
      && |s.blob| == BLOB_STR_LEN && s.lic.version == FORMAT_VERSION
  {
    AppliedMeans(text, cfg, hal, mark);
    AcceptedIff(Some(text), cfg, hal, mark);
  }

  /** The text kept is the canonical form of the text applied, so that respellings of one licence
      are kept alike, and different licences are not. */
  lemma KeptIsCanon(text: seq<u8>, cfg: Option<Config>, hal: Option<Hal>, mark: u32)
    requires StatusOf(Some(text), cfg, hal, mark) == OK
    ensures Applied(text, cfg, hal, mark).blob == Base32.Canon(text)
    ensures |Base32.Canon(text)| == BLOB_STR_LEN
  {
    AppliedMeans(text, cfg, hal, mark);
    Base32Laws.StrictDecoding(text, BLOB_BIN_LEN, BLOB_BIN_LEN, Binary(text).value);
  }

  /** Applying the kept text again, after a reboot say, gives the same answer, the same fields and
      the same text. */
  lemma ReapplyIsStable(text: seq<u8>, cfg: Option<Config>, hal: Option<Hal>, mark: u32,
                        cfg': Option<Config>, hal': Option<Hal>, mark': u32)
    requires StatusOf(Some(text), cfg, hal, mark) == OK
    ensures var kept := Applied(text, cfg, hal, mark).blob;
      && Binary(kept) == Binary(text)
      && Applied(kept, cfg', hal', mark') == Applied(text, cfg', hal', mark')
  {
    var bin := Binary(text).value;
    var kept := Base32.Encode(bin);
    AppliedMeans(text, cfg, hal, mark);
    AppliedMeans(text, cfg', hal', mark');
    AppliedMeans(kept, cfg', hal', mark');
    Base32Laws.StrictDecoding(text, BLOB_BIN_LEN, BLOB_BIN_LEN, bin);
    Base32Laws.EncodeIsCanonical(bin);
    Base32Laws.RoundTrip(bin, BLOB_BIN_LEN);
    OnlyCanonDecides(kept, text, cfg', hal', mark');
  }

  // ---------------------------------------------------------------------- runs

  /** What is called on the object; activate and pump both apply a text. */
  datatype Op =
    | Begin(loaded: Option<Loaded>, hal: Option<Hal>)
    | Apply(text: seq<u8>, hal: Option<Hal>)
    | Clear

  /** A begin that returns before the check. */
  predicate ReturnsEarly(op: Op)
  {
    op.Begin? && !Reaches(op.loaded)
  }

  const START: State := State(NOT_FOUND, ZERO_LICENSE, [])

  /** The state and the stored mark after one call. */
  ghost function After(cfg: Option<Config>, s: State, mark: u32, op: Op): (State, u32)
  {
    match op
    case Begin(loaded, hal) => (Begun(s, loaded, cfg, hal, mark), BegunMark(loaded, cfg, hal, mark))
    case Apply(text, hal) => (Applied(text, cfg, hal, mark), MarkOf(text, cfg, hal, mark))
    case Clear => (START, mark)
  }

  ghost function Run(cfg: Option<Config>, mark: u32, ops: seq<Op>): (State, u32)
  {
    if ops == [] then (START, mark)
    else
      var before := Run(cfg, mark, ops[..|ops| - 1]);
      After(cfg, before.0, before.1, ops[|ops| - 1])
  }

  /** The calls without the early returns at their end. */
  function Settled(ops: seq<Op>): seq<Op>
  {
    if ops == [] || !ReturnsEarly(ops[|ops| - 1]) then ops else Settled(ops[..|ops| - 1])
  }

  /** Early returns change nothing but the status. */
  lemma {:induction false} SettledIsShown(cfg: Option<Config>, mark: u32, ops: seq<Op>)
    ensures var s, t := Run(cfg, mark, ops), Run(cfg, mark, Settled(ops));
      && s.1 == t.1 && s.0 == t.0.(status := s.0.status)
      && (|Settled(ops)| < |ops| ==> s.0.status != OK) && (|Settled(ops)| == |ops| ==> s == t)
    ensures |Settled(ops)| <= |ops|
    ensures Settled(ops) == [] || !ReturnsEarly(Settled(ops)[|Settled(ops)| - 1])
    decreases |ops|
  {
    if ops != [] && ReturnsEarly(ops[|ops| - 1]) {
      SettledIsShown(cfg, mark, ops[..|ops| - 1]);
    }
  }

  lemma SettledIsTidy(cfg: Option<Config>, mark: u32, ops: seq<Op>)
    requires ops == [] || !ReturnsEarly(ops[|ops| - 1])
    ensures Tidy(Run(cfg, mark, ops).0) && Coherent(Run(cfg, mark, ops).0)
  {
    if ops != [] {
      var before := Run(cfg, mark, ops[..|ops| - 1]);
      match ops[|ops| - 1]
      case Begin(loaded, hal) =>
        AppliedIsCoherent(Base32.CString(loaded.value.text + [Base32.NUL]), cfg, hal, before.1);
      case Apply(text, hal) =>
        AppliedIsCoherent(text, cfg, hal, before.1);
      case Clear =>
    }
  }

  /** Over every run of begin, activate, pump and clear, what is shown as in force is one licence
      and its one spelling; and nothing else is shown if and only if the run does not end with
      early returns after a state in which a licence was shown. */
  lemma RunsAreTidy(cfg: Option<Config>, mark: u32, ops: seq<Op>)
    ensures Coherent(Run(cfg, mark, ops).0)
    ensures Tidy(Run(cfg, mark, ops).0) <==> Settled(ops) == ops || IsEmpty(Run(cfg, mark, Settled(ops)).0)
  {
    SettledIsShown(cfg, mark, ops);
    SettledIsTidy(cfg, mark, Settled(ops));
  }

  // ------------------------------------------------------------------- the fold

  lemma {:induction false} CanonGrows(text: seq<u8>, i: nat)
    requires i <= |text|
    ensures Base32.Canon(text[..i]) <= Base32.Canon(text)
    decreases |text| - i
  {
    if i == |text| {
      assert text[..i] == text;
    } else {
      Base32Laws.CanonSnoc(text, i);
      CanonGrows(text, i + 1);
    }
  }

  /** Upper case, and the aliases folded. */
  method FoldCharacter(c: u8) returns (d: u8)
    ensures d == Base32.Fold(c)
  {
    d := c;
    if 'a' as int <= d <= 'z' as int {
      d := d - 'a' as int + 'A' as int;
    }
    if d == 'I' as int || d == 'L' as int {
      d := '1' as int;
    } else if d == 'O' as int {
      d := '0' as int;
    }
  }

  /** The character-by-character fold: upper case, aliases, no grouping, at most 160 characters. */
  method FoldText(memory: seq<u8>) returns (blob: seq<u8>)
    requires Terminated(memory) && |Base32.CString(memory)| < |memory|
    ensures var canon := Base32.Canon(Base32.CString(memory));
      blob == if |canon| < BLOB_STR_LEN then canon else canon[..BLOB_STR_LEN]
  {
    blob := [];
    var i := 0;
    ghost var text := Base32.CString(memory);
    while memory[i] != Base32.NUL && |blob| < BLOB_STR_LEN
      invariant i <= |text| && blob == Base32.Canon(text[..i]) && |blob| <= BLOB_STR_LEN
      decreases |text| - i
    {
      var c := memory[i];
      Base32Laws.CanonSnoc(text, i);
      i := i + 1;
      if Base32.IsGrouping(c) {
        continue;
      }
      c := FoldCharacter(c);
      blob := blob + [c];
    }
    CanonGrows(text, i);
    assert i == |text| ==> text[..i] == text;
  }

  // ------------------------------------------------------------------- the object

  /** The HAL's blob slot. */
  class Storage {
    var stored: seq<u8>

    method Store(text: seq<u8>, outcome: Status) returns (status: Status)
      modifies this
      ensures status == outcome && stored == if status == OK then text else old(stored)
    {
      status := outcome;
      if outcome == OK {
        stored := text;
      }
    }
  }

  class Holder {
    const cfg: Option<Config>
    const marks: MarkStore
    const storage: Storage
    const slot: LicenseSlot
    var status: Status
    var lic: License
    var blob: seq<u8>
    var pending: array<u8>
    var pendingFlag: bool

    ghost predicate Valid()
      reads this, pending
    {
      && (cfg.Some? ==> cfg.value.Valid())
      && pending.Length == Mailbox.BLOB_MAX
      && (pendingFlag ==> |Base32.CString(pending[..])| < pending.Length)
    }

    ghost function Shown(): State
      reads this
    {
      State(status, lic, blob)
    }

    constructor (cfg: Option<Config>, marks: MarkStore, storage: Storage)
      requires cfg.Some? ==> cfg.value.Valid()
      ensures Valid() && Shown() == START && !pendingFlag
      ensures this.cfg == cfg && this.marks == marks && this.storage == storage
      ensures fresh(pending) && fresh(slot)
    {
      this.cfg, this.marks, this.storage := cfg, marks, storage;
      slot := new LicenseSlot();
      status, lic, blob := NOT_FOUND, ZERO_LICENSE, [];
      pending := new u8[Mailbox.BLOB_MAX](_ => 0);
      pendingFlag := false;
    }

    /** Verifies a text, and says what is to be shown of it. */
    method Judge(memory: seq<u8>, hal: Option<Hal>) returns (verdict: Status)
      requires Valid() && |Base32.CString(memory)| < |memory|
      modifies marks, slot
      ensures var text := Base32.CString(memory);
        && marks.mark == MarkOf(text, cfg, hal, old(marks.mark))
        && Applied(text, cfg, hal, old(marks.mark))
             == State(verdict, slot.lic, if verdict == OK then Base32.Canon(text) else [])
        && (verdict != OK ==> slot.lic == ZERO_LICENSE)
        && (verdict == OK ==> |Base32.Canon(text)| == BLOB_STR_LEN)
    {
      ghost var text, mark := Base32.CString(memory), marks.mark;
      verdict := VerifyLicense(Some(memory), cfg, hal, marks, slot);
      AppliedMeans(text, cfg, hal, mark);
      Call(Some(text), cfg, hal).Meaning(mark);
      if verdict == OK {
        KeptIsCanon(text, cfg, hal, mark);
      }
    }

    /** _apply: verify, take over, and keep the canonical text. A licence that verified but could
        not be stored is in force all the same. */
    method Apply(memory: seq<u8>, hal: Option<Hal>, persist: bool, store: Option<Status>) returns (result: Status)
      requires Valid() && |Base32.CString(memory)| < |memory|
      modifies this`status, this`lic, this`blob, marks, storage, slot
      ensures Valid()
      ensures var text := Base32.CString(memory);
        && Shown() == Applied(text, cfg, hal, old(marks.mark))
        && marks.mark == MarkOf(text, cfg, hal, old(marks.mark))
      ensures var kept := status == OK && persist && store.Some?;
        && storage.stored == (if kept && store == Some(OK) then blob else old(storage.stored))
        && result == (if kept && store != Some(OK) then PLATFORM else status)
    {
      var verdict := Judge(memory, hal);
      if verdict != OK {
        status, lic, blob := verdict, ZERO_LICENSE, [];
        return verdict;
      }
      lic := slot.lic;
      slot.lic := ZERO_LICENSE;
      status := OK;
      blob := FoldText(memory);
      result := Persist(persist, store);
    }

    /** Stores the canonical text, if that is wanted and possible. */
    method Persist(persist: bool, store: Option<Status>) returns (result: Status)
      modifies storage
      ensures storage.stored == (if persist && store == Some(OK) then blob else old(storage.stored))
      ensures result == (if persist && store.Some? && store != Some(OK) then PLATFORM else OK)
    {
      if persist && store.Some? {
        var stored := storage.Store(blob, store.value);
        if stored != OK {
          return PLATFORM;
        }
      }
      result := OK;
    }

    method Begin(loaded: Option<Loaded>, hal: Option<Hal>) returns (result: Status)
      requires Valid()
      modifies this`status, this`lic, this`blob, marks, storage, slot
      ensures Valid() && result == status
      ensures Shown() == Begun(old(Shown()), loaded, cfg, hal, old(marks.mark))
      ensures marks.mark == BegunMark(loaded, cfg, hal, old(marks.mark))
      ensures loaded.None? ==> status == NOT_FOUND
      ensures loaded.Some? && loaded.value.status != OK ==> status == loaded.value.status
      ensures loaded.Some? && loaded.value.status == OK && |loaded.value.text| > 160 ==> status == PLATFORM
      ensures loaded.Some? && loaded.value.status == OK && |loaded.value.text| <= 160 ==>
        Shown() == Applied(Base32.CString(loaded.value.text + [0]), cfg, hal, old(marks.mark))
      ensures loaded.None? || loaded.value.status != OK || |loaded.value.text| > 160 ==>
        lic == old(lic) && blob == old(blob) && marks.mark == old(marks.mark)
      ensures storage.stored == old(storage.stored)
    {
      if loaded.None? {
        status := NOT_FOUND;
        return status;
      }
      if loaded.value.status != OK {
        status := loaded.value.status;
        return status;
      }
      if |loaded.value.text| >= BLOB_STR_BUF_LEN {
        status := PLATFORM;
        return status;
      }
      EndsInNul(loaded.value.text);
      result := Apply(loaded.value.text + [Base32.NUL], hal, false, None);
    }

    method Activate(memory: seq<u8>, hal: Option<Hal>, store: Option<Status>) returns (result: Status)
      requires Valid() && |Base32.CString(memory)| < |memory|
      modifies this`status, this`lic, this`blob, marks, storage, slot
      ensures Valid()
      ensures Shown() == Applied(Base32.CString(memory), cfg, hal, old(marks.mark))
      ensures marks.mark == MarkOf(Base32.CString(memory), cfg, hal, old(marks.mark))
      ensures storage.stored == (if status == OK && store == Some(OK) then blob else old(storage.stored))
      ensures result == (if status == OK && store.Some? && store != Some(OK) then PLATFORM else status)
    {
      result := Apply(memory, hal, true, store);
    }

    /** Copies a text into the slot, unless it does not fit or one is waiting. */
    method Submit(text: seq<u8>) returns (taken: bool)
      requires Valid()
      modifies this`pendingFlag, pending
      ensures Valid()
      ensures taken <==> 0 < |text| < 224 && !old(pendingFlag)
      ensures taken ==> pendingFlag && pending[..] == Mailbox.SlotWith(old(pending[..]), text)
      ensures taken ==> Base32.CString(pending[..]) == Base32.CString(text)
      ensures !taken ==> pendingFlag == old(pendingFlag) && pending[..] == old(pending[..])
    {
      if |text| == 0 || |text| >= pending.Length {
        return false;
      }
      if pendingFlag {
        return false;
      }
      forall k | 0 <= k < |text| {
        pending[k] := text[k];
      }
      pending[|text|] := 0;
      TextInMemory(pending[..], text);
      pendingFlag := true;
      taken := true;
    }

    /** Applies the text that waits, if there is one, and empties the slot. */
    method Pump(hal: Option<Hal>, store: Option<Status>) returns (did: bool, result: Status)
      requires Valid()
      modifies this`status, this`lic, this`blob, this`pendingFlag, pending, marks, storage, slot
      ensures Valid() && !pendingFlag && did == old(pendingFlag)
      ensures did ==>
        && Shown() == Applied(Base32.CString(old(pending[..])), cfg, hal, old(marks.mark))
        && marks.mark == MarkOf(Base32.CString(old(pending[..])), cfg, hal, old(marks.mark))
        && storage.stored == (if status == OK && store == Some(OK) then blob else old(storage.stored))
        && result == (if status == OK && store.Some? && store != Some(OK) then PLATFORM else status)
      ensures did ==> pending[..] == Padding.Zeros(Mailbox.BLOB_MAX)
      ensures !did ==>
        && Shown() == old(Shown()) && marks.mark == old(marks.mark) && storage.stored == old(storage.stored)
        && pending[..] == old(pending[..])
    {
      if !pendingFlag {
        return false, OK;
      }
      result := Activate(pending[..], hal, store);
      forall k | 0 <= k < pending.Length {
        pending[k] := 0;
      }
      pendingFlag := false;
      did := true;
    }

    /** Forgets the licence. */
    method Clear(store: Option<Status>) returns (result: Status)
      requires Valid()
      modifies this`status, this`lic, this`blob, storage
      ensures Valid() && Shown() == START
      ensures result == if store.Some? then store.value else OK
      ensures storage.stored == if store == Some(OK) then [] else old(storage.stored)
    {
      status, lic, blob := NOT_FOUND, ZERO_LICENSE, [];
      if store.Some? {
        result := storage.Store([], store.value);
      } else {
        result := OK;
      }
    }
  }

  lemma EndsInNul(text: seq<u8>)
    ensures var memory := text + [Base32.NUL]; |Base32.CString(memory)| < |memory|
  {
    var memory := text + [Base32.NUL];
    assert memory[|text|] == Base32.NUL;
  }

  /** A text followed by a NUL is the same C string. */
  lemma {:induction false} TextInMemory(memory: seq<u8>, text: seq<u8>)
    requires |text| < |memory| && memory[..|text|] == text && memory[|text|] == Base32.NUL
    ensures Base32.CString(memory) == Base32.CString(text) && |Base32.CString(memory)| < |memory|
    decreases |text|
  {
    if text != [] && text[0] != Base32.NUL {
      assert memory[0] == text[0];
      assert memory[1..][..|text| - 1] == memory[..|text|][1..];
      TextInMemory(memory[1..], text[1..]);
    }
  }
}
