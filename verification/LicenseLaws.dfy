/** What vl_verify decides, and what its high-water mark keeps over whole runs. */
module LicenseLaws {
  import opened Words
  import opened Wrappers
  import opened Core
  import opened Modular
  import opened Verify
  import Base32
  import Base32Laws

  // ------------------------------------------------------------------ one call

  /** Everything that does not depend on the time: format, product, key, signature, device and
      deny-list. */
  ghost predicate Genuine(bin: seq<u8>, cfg: Config, hal: Hal)
    requires |bin| == BLOB_BIN_LEN
  {
    && bin[0] == MAGIC && bin[1] == FORMAT_VERSION && bin[3] == cfg.family
    && KeyFor(cfg.keys, bin[2]).Some?
    && Signed(bin, KeyFor(cfg.keys, bin[2]).value.key)
    && DeviceStatus(bin[8..24], hal) == OK
    && Parsed(bin).serial !in cfg.revokedSerials
  }

  /** The clock, if there is one, is inside the window and not behind the mark, and the mark can
      be kept. */
  ghost predicate Timely(lic: License, cfg: Config, hal: Hal, mark: u32)
  {
    if hal.clock.None? then !cfg.requireClock && !cfg.enforceHwm
    else
      && hal.clock.value.status == OK
      && InWindow(lic, hal.clock.value.now)
      && (cfg.enforceHwm ==>
            && hal.hwmLoad == Some(OK) && hal.hwmStore.Some?
            && mark <= hal.clock.value.now
            && (mark < hal.clock.value.now ==> hal.hwmStore == Some(OK)))
  }

  /** The order of the checks decides which failure is reported, never whether there is one. */
  lemma AcceptedIff(blob: Option<seq<u8>>, cfg: Option<Config>, hal: Option<Hal>, mark: u32)
    ensures StatusOf(blob, cfg, hal, mark) == OK <==>
      && ArgumentsOk(blob, cfg, hal)
      && Binary(blob.value).Some?
      && Genuine(Binary(blob.value).value, cfg.value, hal.value)
      && Timely(Parsed(Binary(blob.value).value), cfg.value, hal.value, mark)
  {
    if ArgumentsOk(blob, cfg, hal) && Binary(blob.value).Some? {
      BinaryAccepted(Binary(blob.value).value, cfg.value, hal.value, mark);
    }
  }

  lemma BinaryAccepted(bin: seq<u8>, cfg: Config, hal: Hal, mark: u32)
    requires |bin| == BLOB_BIN_LEN
    requires cfg.enforceHwm ==> hal.clock.Some? && hal.hwmLoad.Some? && hal.hwmStore.Some?
    ensures BinStatus(bin, cfg, hal, mark) == OK <==> Genuine(bin, cfg, hal) && Timely(Parsed(bin), cfg, hal, mark)
  {
  }

  /** Two spellings of at most 1024 characters with one canonical form are treated alike in every
      respect. */
  lemma OnlyCanonDecides(s: seq<u8>, t: seq<u8>, cfg: Option<Config>, hal: Option<Hal>, mark: u32)
    requires |s| <= Base32.MAX_INPUT && |t| <= Base32.MAX_INPUT && Base32.Canon(s) == Base32.Canon(t)
    ensures StatusOf(Some(s), cfg, hal, mark) == StatusOf(Some(t), cfg, hal, mark)
    ensures LicenseOf(Some(s), cfg, hal, mark) == LicenseOf(Some(t), cfg, hal, mark)
    ensures MarkAfter(Some(s), cfg, hal, mark) == MarkAfter(Some(t), cfg, hal, mark)
  {
    Base32Laws.OnlyCanonMatters(s, t, BLOB_BIN_LEN, BLOB_BIN_LEN);
  }

  // ---------------------------------------------------------------------- runs

  datatype Call = Call(blob: Option<seq<u8>>, cfg: Option<Config>, hal: Option<Hal>)
  {
    /** The status, the licence handed back, and the mark afterwards; kept folded. */
    ghost function Status(mark: u32): Core.Status
    {
      StatusBy(Folds(), mark)
    }

    ghost function StatusBy(n: nat, mark: u32): Core.Status
    {
      if n == 0 then StatusOf(blob, cfg, hal, mark) else StatusBy(n - 1, mark)
    }

    ghost function Next(mark: u32): u32
    {
      NextBy(Folds(), mark)
    }

    ghost function NextBy(n: nat, mark: u32): u32
    {
      if n == 0 then MarkAfter(blob, cfg, hal, mark) else NextBy(n - 1, mark)
    }

    lemma Meaning(mark: u32)
      ensures Status(mark) == StatusOf(blob, cfg, hal, mark)
      ensures Next(mark) == MarkAfter(blob, cfg, hal, mark)
      ensures License(mark) == LicenseOf(blob, cfg, hal, mark)
    {
      Unfold(Folds(), mark);
    }

    lemma {:induction false} Unfold(n: nat, mark: u32)
      ensures StatusBy(n, mark) == StatusOf(blob, cfg, hal, mark)
      ensures NextBy(n, mark) == MarkAfter(blob, cfg, hal, mark)
      ensures LicenseBy(n, mark) == LicenseOf(blob, cfg, hal, mark)
    {
      if n != 0 {
        Unfold(n - 1, mark);
      }
    }

    ghost predicate Enforcing()
    {
      cfg.Some? ==> cfg.value.enforceHwm
    }

    ghost function License(mark: u32): Core.License
    {
      LicenseBy(Folds(), mark)
    }

    ghost function LicenseBy(n: nat, mark: u32): Core.License
    {
      if n == 0 then LicenseOf(blob, cfg, hal, mark) else LicenseBy(n - 1, mark)
    }
  }

  /** The stored mark after the first n calls of a run, each with a configuration, a platform and
      a clock of its own. */
  ghost function MarkAt(start: u32, calls: seq<Call>, n: nat): u32
    requires n <= |calls|
  {
    if n == 0 then start
    else calls[n - 1].Next(MarkAt(start, calls, n - 1))
  }

  ghost predicate AcceptedAt(start: u32, calls: seq<Call>, i: nat)
    requires i < |calls|
  {
    calls[i].Status(MarkAt(start, calls, i)) == OK
  }

  /** The clock reading of an accepted call. */
  ghost function ClockAt(calls: seq<Call>, i: nat): u32
    requires i < |calls|
  {
    if calls[i].hal.Some? && calls[i].hal.value.clock.Some? then calls[i].hal.value.clock.value.now else 0
  }

  /** One call keeps the mark, unless it is accepted: then the mark is the clock's reading, which
      is not behind it. */
  lemma CallMovesMark(start: u32, calls: seq<Call>, i: nat)
    requires i < |calls| && calls[i].Enforcing()
    ensures MarkAt(start, calls, i) <= MarkAt(start, calls, i + 1)
    ensures MarkAt(start, calls, i + 1)
         == if AcceptedAt(start, calls, i) then ClockAt(calls, i) else MarkAt(start, calls, i)
  {
    var c := calls[i];
    c.Meaning(MarkAt(start, calls, i));
    AcceptedIff(c.blob, c.cfg, c.hal, MarkAt(start, calls, i));
  }

  /** The mark never goes back. */
  lemma {:induction false} MarkIsMonotone(start: u32, calls: seq<Call>, i: nat, j: nat)
    requires i <= j <= |calls|
    requires forall k :: 0 <= k < |calls| ==> calls[k].Enforcing()
    ensures MarkAt(start, calls, i) <= MarkAt(start, calls, j)
    decreases j
  {
    if i < j {
      MarkIsMonotone(start, calls, i, j - 1);
      CallMovesMark(start, calls, j - 1);
    }
  }

  /** Among the accepted calls of a run, the clock never goes back, whatever it did in between. */
  lemma AcceptedClocksAreMonotone(start: u32, calls: seq<Call>, i: nat, j: nat)
    requires i < j < |calls|
    requires forall k :: 0 <= k < |calls| ==> calls[k].Enforcing()
    requires AcceptedAt(start, calls, i) && AcceptedAt(start, calls, j)
    ensures ClockAt(calls, i) <= ClockAt(calls, j)
  {
    CallMovesMark(start, calls, i);
    MarkIsMonotone(start, calls, i + 1, j);
    CallMovesMark(start, calls, j);
  }

  /** Once a licence, any licence, was accepted at some time, none that had expired by then is
      accepted again, however the clock is set back. */
  lemma ExpiredBeforeAcceptance(start: u32, calls: seq<Call>, i: nat, j: nat)
    requires i < j < |calls|
    requires forall k :: 0 <= k < |calls| ==> calls[k].Enforcing()
    requires AcceptedAt(start, calls, i) && AcceptedAt(start, calls, j)
    ensures var lic := calls[j].License(MarkAt(start, calls, j));
      lic.notAfter == 0 || ClockAt(calls, i) <= lic.notAfter
  {
    AcceptedClocksAreMonotone(start, calls, i, j);
    var c := calls[j];
    c.Meaning(MarkAt(start, calls, j));
    AcceptedIff(c.blob, c.cfg, c.hal, MarkAt(start, calls, j));
  }

  /** The last call accepted among the first n; -1 if there is none. */
  ghost function LastAccepted(start: u32, calls: seq<Call>, n: nat): (k: int)
    requires n <= |calls|
    ensures -1 <= k < n
  {
    if n == 0 then -1
    else if AcceptedAt(start, calls, n - 1) then n - 1
    else LastAccepted(start, calls, n - 1)
  }

  /** The mark after a run is the reading of the last call accepted: nothing else moves it. */
  lemma {:induction false} MarkIsLastAccepted(start: u32, calls: seq<Call>, n: nat)
    requires n <= |calls|
    requires forall k :: 0 <= k < |calls| ==> calls[k].Enforcing()
    ensures var k := LastAccepted(start, calls, n);
      MarkAt(start, calls, n) == if k < 0 then start else ClockAt(calls, k)
    decreases n
  {
    if n > 0 {
      MarkIsLastAccepted(start, calls, n - 1);
      CallMovesMark(start, calls, n - 1);
    }
  }

  // -------------------------------------------------- expiry is not for ever

  /** The same call with the clock set to another time. */
  ghost function At(c: Call, now: u32): Call
  {
    if c.hal.None? then c else c.(hal := Some(c.hal.value.(clock := Some(Reading(OK, now)))))
  }

  /** A genuine licence on a platform whose mark works. */
  ghost predicate Ready(c: Call)
  {
    && ArgumentsOk(c.blob, c.cfg, c.hal) && c.cfg.value.enforceHwm
    && Binary(c.blob.value).Some? && Genuine(Binary(c.blob.value).value, c.cfg.value, c.hal.value)
    && c.hal.value.hwmLoad == Some(OK) && c.hal.value.hwmStore == Some(OK)
  }

  ghost function Fields(c: Call): Core.License
    requires Ready(c)
  {
    Parsed(Binary(c.blob.value).value)
  }

  /** The exact times at which a genuine licence is accepted. */
  lemma AcceptedTimes(c: Call, now: u32, mark: u32)
    requires Ready(c)
    ensures Ready(At(c, now)) && Fields(At(c, now)) == Fields(c)
    ensures At(c, now).Status(mark) == OK <==> mark <= now && InWindow(Fields(c), now)
    ensures Fields(c).notAfter != 0 && now > Fields(c).notAfter && now >= Fields(c).notBefore ==>
      At(c, now).Status(mark) == EXPIRED
  {
    var d := At(c, now);
    d.Meaning(mark);
    DeviceIgnoresClock(Binary(c.blob.value).value[8..24], c.hal.value, d.hal.value);
    AcceptedIff(d.blob, d.cfg, d.hal, mark);
  }

  lemma DeviceIgnoresClock(deviceId: seq<u8>, a: Hal, b: Hal)
    requires a.segments == b.segments
    ensures DeviceStatus(deviceId, a) == DeviceStatus(deviceId, b)
  {
  }

  /** "Once EXPIRED, always EXPIRED" is not kept: a refusal leaves the mark alone, so a licence
      accepted at some time is refused past its end and accepted again at the earlier time. */
  lemma ExpiredIsForgotten(c: Call, early: u32, late: u32, mark: u32)
    requires Ready(c) && At(c, early).Status(mark) == OK
    requires 0 < Fields(c).notAfter < late
    ensures var calls := [At(c, late), At(c, early)];
      && calls[0].Status(MarkAt(mark, calls, 0)) == EXPIRED
      && calls[1].Status(MarkAt(mark, calls, 1)) == OK
  {
    AcceptedTimes(c, early, mark);
    AcceptedTimes(c, late, mark);
    var calls := [At(c, late), At(c, early)];
    CallMovesMark(mark, calls, 0);
  }

  /** Exactly when a genuine licence is refused at every time to come: when the mark is past its
      end, or its window is empty. */
  lemma RefusedForEver(c: Call, mark: u32)
    requires Ready(c)
    ensures (forall now: u32 :: At(c, now).Status(mark) != OK)
       <==> Fields(c).notAfter != 0 && (mark > Fields(c).notAfter || Fields(c).notBefore > Fields(c).notAfter)
  {
    var lic := Fields(c);
    var first: u32 := if mark < lic.notBefore then lic.notBefore else mark;
    AcceptedTimes(c, first, mark);
    forall now: u32
      ensures At(c, now).Status(mark) == OK <==> mark <= now && InWindow(lic, now)
    {
      AcceptedTimes(c, now, mark);
    }
  }

  /** Once the mark is past a licence's end, no later call of the run accepts it, whatever calls and
      clock readings come between. */
  lemma PastItsEnd(start: u32, calls: seq<Call>, n: nat, j: nat)
    requires n <= j < |calls|
    requires forall k :: 0 <= k < |calls| ==> calls[k].Enforcing()
    ensures var lic := calls[j].License(MarkAt(start, calls, j));
      lic.notAfter != 0 && lic.notAfter < MarkAt(start, calls, n) ==> !AcceptedAt(start, calls, j)
  {
    if AcceptedAt(start, calls, j) {
      MarkIsMonotone(start, calls, n, j);
      CallMovesMark(start, calls, j);
      var c := calls[j];
      c.Meaning(MarkAt(start, calls, j));
      AcceptedIff(c.blob, c.cfg, c.hal, MarkAt(start, calls, j));
    }
  }

  /** A run goes on with some calls, and then with a call at some time, which is accepted. */
  ghost predicate AcceptedLater(start: u32, calls: seq<Call>, c: Call, more: seq<Call>, now: u32)
  {
    && (forall k :: 0 <= k < |more| ==> more[k].Enforcing())
    && At(c, now).Status(MarkAt(start, calls + more, |calls + more|)) == OK
  }

  lemma {:induction false} MarkOfPrefix(start: u32, calls: seq<Call>, more: seq<Call>, n: nat)
    requires n <= |calls|
    ensures MarkAt(start, calls + more, n) == MarkAt(start, calls, n)
    decreases n
  {
    if n > 0 {
      MarkOfPrefix(start, calls, more, n - 1);
    }
  }

  lemma LaterMark(start: u32, calls: seq<Call>, more: seq<Call>)
    requires forall k :: 0 <= k < |calls| ==> calls[k].Enforcing()
    requires forall k :: 0 <= k < |more| ==> more[k].Enforcing()
    ensures MarkAt(start, calls, |calls|) <= MarkAt(start, calls + more, |calls + more|)
  {
    MarkOfPrefix(start, calls, more, |calls|);
    MarkIsMonotone(start, calls + more, |calls|, |calls + more|);
  }

  /** Exactly when a genuine licence is refused in every continuation of a run, at every time: when
      the mark that the run has reached is past its end, or its window is empty. Otherwise it is
      accepted at once at a suitable time. */
  lemma RefusedInEveryRun(start: u32, calls: seq<Call>, c: Call)
    requires Ready(c) && forall k :: 0 <= k < |calls| ==> calls[k].Enforcing()
    ensures (forall more: seq<Call>, now: u32 :: !AcceptedLater(start, calls, c, more, now))
       <==> Fields(c).notAfter != 0
            && (MarkAt(start, calls, |calls|) > Fields(c).notAfter || Fields(c).notBefore > Fields(c).notAfter)
  {
    var mark, lic := MarkAt(start, calls, |calls|), Fields(c);
    RefusedForEver(c, mark);
    if now: u32 :| At(c, now).Status(mark) == OK {
      assert calls + [] == calls;
      assert AcceptedLater(start, calls, c, [], now);
    } else {
      forall more: seq<Call>, now: u32
        ensures !AcceptedLater(start, calls, c, more, now)
      {
        if AcceptedLater(start, calls, c, more, now) {
          LaterMark(start, calls, more);
          AcceptedTimes(c, now, MarkAt(start, calls + more, |calls + more|));
          AcceptedTimes(c, now, mark);
        }
      }
    }
  }
}
