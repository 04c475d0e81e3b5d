/** submit and pump of bridge/vl_bridge.h as two threads of control, interleaved byte by byte.
    Sequential consistency and the one documented writer are assumed. */
module Mailbox {
  import opened Words
  import Base32
  import Padding

  const BLOB_MAX: nat := 224

  /** Where the submitting task is. */
  datatype Submitter =
    | Idle
    | Called(data: seq<u8>)              // about to test the flag
    | Copying(data: seq<u8>, done: nat)  // bytes copied so far
    | Publishing(data: seq<u8>)          // about to set the flag

  /** Where the loop task is. */
  datatype Pumper =
    | Resting
    | Applying(got: seq<u8>)  // the activation, having read so much of the text
    | Wiping(done: nat)
    | Clearing                // about to clear the flag

  /** The shared slot, the two tasks, and what has been accepted and applied so far. */
  datatype State = State(
    pending: seq<u8>,
    flag: bool,
    submitter: Submitter,
    pumper: Pumper,
    accepted: seq<seq<u8>>,
    applied: seq<seq<u8>>)

  /** The next thing to happen: a submission is made, or a task takes its next step. */
  datatype Label = Submit(data: seq<u8>) | SubmitterMoves | PumperMoves

  function Init(): State
  {
    State(Padding.Zeros(BLOB_MAX), false, Idle, Resting, [], [])
  }

  function SubmitterStep(s: State): State
  {
    match s.submitter
    case Idle => s
    case Called(data) =>
      s.(submitter := if s.flag then Idle else Copying(data, 0))
    case Copying(data, n) =>
      if n < |data| && n < |s.pending| then s.(pending := s.pending[n := data[n]], submitter := Copying(data, n + 1))
      else if n < |s.pending| then s.(pending := s.pending[n := 0], submitter := Publishing(data))
      else s
    case Publishing(data) =>
      s.(flag := true, submitter := Idle, accepted := s.accepted + [data])
  }

  function PumperStep(s: State): State
  {
    match s.pumper
    case Resting =>
      if s.flag then s.(pumper := Applying([])) else s
    case Applying(got) =>
      if |got| >= |s.pending| then s
      else if s.pending[|got|] == 0 then s.(pumper := Wiping(0), applied := s.applied + [got])
      else s.(pumper := Applying(got + [s.pending[|got|]]))
    case Wiping(n) =>
      if n < |s.pending| then s.(pending := s.pending[n := 0], pumper := Wiping(n + 1))
      else s.(pumper := Clearing)
    case Clearing =>
      s.(flag := false, pumper := Resting)
  }

  /** A call with no bytes, too many, or while another is in progress changes nothing. */
  function Step(s: State, l: Label): State
  {
    match l
    case Submit(data) =>
      if s.submitter.Idle? && 0 < |data| < BLOB_MAX then s.(submitter := Called(data)) else s
    case SubmitterMoves => SubmitterStep(s)
    case PumperMoves => PumperStep(s)
  }

  function Run(labels: seq<Label>): State
  {
    if labels == [] then Init() else Step(Run(labels[..|labels| - 1]), labels[|labels| - 1])
  }

  // ------------------------------------------------------------------ invariant

  /** A submission waits in the slot: published, and its application not finished. */
  predicate Waiting(s: State)
  {
    s.flag && (s.pumper.Resting? || s.pumper.Applying?)
  }

  ghost predicate Submitting(s: State)
    requires |s.pending| == BLOB_MAX
  {
    match s.submitter
    case Idle => true
    case Called(data) => 0 < |data| < BLOB_MAX
    case Copying(data, n) =>
      0 < |data| < BLOB_MAX && !s.flag && s.pumper.Resting? && n <= |data| && s.pending[..n] == data[..n]
    case Publishing(data) =>
      && 0 < |data| < BLOB_MAX && !s.flag && s.pumper.Resting?
      && s.pending[..|data|] == data && s.pending[|data|] == 0
  }

  ghost predicate Pumping(s: State)
    requires |s.pending| == BLOB_MAX
  {
    && (!s.pumper.Resting? ==> s.flag)
    && (s.pumper.Applying? ==>
          && |s.pumper.got| < BLOB_MAX && s.pumper.got == s.pending[..|s.pumper.got|]
          && forall k :: 0 <= k < |s.pumper.got| ==> s.pumper.got[k] != 0)
  }

  /** The slot holds the last submission, ended by a NUL. */
  ghost predicate Holds(s: State, data: seq<u8>)
  {
    0 < |data| < BLOB_MAX && |s.pending| == BLOB_MAX && s.pending[..|data|] == data && s.pending[|data|] == 0
  }

  ghost predicate History(s: State)
  {
    && |s.accepted| == |s.applied| + (if Waiting(s) then 1 else 0)
    && (Waiting(s) ==> Holds(s, s.accepted[|s.applied|]))
    && forall k :: 0 <= k < |s.applied| ==> s.applied[k] == Base32.CString(s.accepted[k])
  }

  ghost predicate Inv(s: State)
  {
    |s.pending| == BLOB_MAX && Submitting(s) && Pumping(s) && History(s)
  }

  /** What the activation has read when it meets a NUL is the submission as a C string. */
  lemma {:induction false} CStringIs(data: seq<u8>, n: nat)
    requires n <= |data| && (forall k :: 0 <= k < n ==> data[k] != 0) && (n < |data| ==> data[n] == 0)
    ensures Base32.CString(data) == data[..n]
    decreases n
  {
    if n > 0 {
      CStringIs(data[1..], n - 1);
      assert data[..n] == [data[0]] + data[1..][..n - 1];
    }
  }

  lemma AppliedIs(s: State, data: seq<u8>)
    requires Inv(s) && Holds(s, data) && s.pumper.Applying? && s.pending[|s.pumper.got|] == 0
    ensures s.pumper.got == Base32.CString(data)
  {
    var n := |s.pumper.got|;
    assert forall k :: 0 <= k < n ==> s.pending[k] == s.pumper.got[k];
    assert forall k :: 0 <= k < |data| ==> s.pending[k] == data[k];
    CStringIs(data, n);
    assert data[..n] == s.pending[..n];
  }

  lemma SubmitterKeeps(s: State)
    requires Inv(s)
    ensures Inv(SubmitterStep(s))
  {
    match s.submitter
    case Idle =>
    case Called(data) =>
      assert s.pending[..0] == data[..0];
    case Copying(data, n) =>
      if n < |data| {
        assert s.pending[n := data[n]][..n + 1] == data[..n + 1];
      } else {
        assert data[..n] == data && s.pending[n := 0][..n] == data;
      }
    case Publishing(data) =>
  }

  lemma PumperKeeps(s: State)
    requires Inv(s)
    ensures Inv(PumperStep(s))
  {
    match s.pumper
    case Resting =>
      assert s.pending[..0] == [];
    case Applying(got) =>
      var data := s.accepted[|s.applied|];
      if s.pending[|got|] == 0 {
        AppliedIs(s, data);
      } else {
        NotPastEnd(s, data);
      }
    case Wiping(n) =>
    case Clearing =>
  }

  /** Reading goes no further than the NUL behind the submission. */
  lemma NotPastEnd(s: State, data: seq<u8>)
    requires Inv(s) && Holds(s, data) && s.pumper.Applying? && s.pending[|s.pumper.got|] != 0
    ensures |s.pumper.got| < |data|
  {
    var n := |s.pumper.got|;
    assert forall k :: 0 <= k < n ==> s.pending[k] == s.pumper.got[k];
  }

  lemma StepKeeps(s: State, l: Label)
    requires Inv(s)
    ensures Inv(Step(s, l))
  {
    match l
    case Submit(data) =>
    case SubmitterMoves => SubmitterKeeps(s);
    case PumperMoves => PumperKeeps(s);
  }

  /** However the two tasks interleave, every submission accepted is applied at most once, in
      order, as the C string that its bytes start; at most the last one is still waiting. */
  lemma {:induction false} AppliedInOrder(labels: seq<Label>)
    ensures Inv(Run(labels))
    ensures var s := Run(labels);
      && |s.applied| <= |s.accepted| <= |s.applied| + 1
      && (forall k :: 0 <= k < |s.applied| ==> s.applied[k] == Base32.CString(s.accepted[k]))
    decreases |labels|
  {
    if labels != [] {
      AppliedInOrder(labels[..|labels| - 1]);
      StepKeeps(Run(labels[..|labels| - 1]), labels[|labels| - 1]);
    }
  }

  /** A submission that waits is not overwritten: no step changes the slot until it is applied, and
      only its own application ends the wait. */
  lemma WaitingIsUndisturbed(labels: seq<Label>, l: Label)
    requires Waiting(Run(labels))
    ensures var s, t := Run(labels), Run(labels + [l]);
      && t.pending == s.pending && t.accepted == s.accepted
      && |s.accepted| == |s.applied| + 1
      && t.applied == if Waiting(t) then s.applied else s.applied + [Base32.CString(s.accepted[|s.applied|])]
  {
    AppliedInOrder(labels);
    AppliedInOrder(labels + [l]);
    assert (labels + [l])[..|labels|] == labels;
    var s := Run(labels);
    if l.PumperMoves? && s.pumper.Applying? && s.pending[|s.pumper.got|] == 0 {
      AppliedIs(s, s.accepted[|s.applied|]);
    }
  }

  // ------------------------------------------------------------- one submission

  /** What becomes of a call: not tested yet, refused, or taken. */
  datatype Answer = Untested | Refused | Taken

  /** The answer to the call under way after some labels, given the labels since. */
  function AnswerAfter(labels: seq<Label>, more: seq<Label>): Answer
  {
    if more == [] then Untested
    else
      var before := more[..|more| - 1];
      var answer := AnswerAfter(labels, before);
      if answer != Untested || !more[|more| - 1].SubmitterMoves? then answer
      else if Run(labels + before).flag then Refused
      else Taken
  }

  /** How many steps the submitting task has taken. */
  function Moves(more: seq<Label>): nat
  {
    if more == [] then 0
    else Moves(more[..|more| - 1]) + if more[|more| - 1].SubmitterMoves? then 1 else 0
  }

  /** Where a call taken is after n steps: one for the test, one for each byte and the NUL, one to
      publish. */
  function Stage(data: seq<u8>, n: nat): Submitter
    requires n > 0
  {
    if n <= |data| + 1 then Copying(data, n - 1)
    else if n == |data| + 2 then Publishing(data)
    else Idle
  }

  /** What a call has done to the submissions accepted. */
  ghost predicate Progress(s: State, t: State, data: seq<u8>, answer: Answer, n: nat)
  {
    match answer
    case Untested => n == 0 && t.submitter == Called(data) && t.accepted == s.accepted
    case Refused => n > 0 && t.submitter == Idle && t.accepted == s.accepted
    case Taken =>
      && n > 0 && t.submitter == Stage(data, n)
      && t.accepted == if n < |data| + 3 then s.accepted else s.accepted + [data]
  }

  lemma RunSnoc(labels: seq<Label>, l: Label)
    ensures Run(labels + [l]) == Step(Run(labels), l)
  {
    assert (labels + [l])[..|labels|] == labels;
  }

  /** A call refused leaves nothing behind, however the run goes on; a call taken adds its bytes
      to the submissions accepted exactly once, at the step that publishes them. Until the next
      call, that is all that happens to them. */
  lemma {:induction false} CallIsAnswered(labels: seq<Label>, more: seq<Label>)
    requires Run(labels).submitter.Called?
    requires forall k :: 0 <= k < |more| ==> !more[k].Submit?
    ensures Progress(Run(labels), Run(labels + more), Run(labels).submitter.data, AnswerAfter(labels, more), Moves(more))
    decreases |more|
  {
    if more == [] {
      assert labels + more == labels;
    } else {
      var n := |more| - 1;
      var before, l := more[..n], more[n];
      CallIsAnswered(labels, before);
      AppliedInOrder(labels);
      AppliedInOrder(labels + before);
      assert labels + more == labels + before + [l];
      RunSnoc(labels + before, l);
      ProgressStep(Run(labels), Run(labels + before), Run(labels).submitter.data, AnswerAfter(labels, before), Moves(before), l);
    }
  }

  lemma ProgressStep(s: State, t: State, data: seq<u8>, answer: Answer, n: nat, l: Label)
    requires Inv(t) && !l.Submit? && 0 < |data| < BLOB_MAX && Progress(s, t, data, answer, n)
    ensures var next := if answer != Untested || !l.SubmitterMoves? then answer else if t.flag then Refused else Taken;
      Progress(s, Step(t, l), data, next, n + if l.SubmitterMoves? then 1 else 0)
  {
  }

  /** No step of a call that is not taken touches the slot. */
  lemma RefusedTouchesNothing(labels: seq<Label>, more: seq<Label>)
    requires Run(labels).submitter.Called?
    requires forall k :: 0 <= k < |more| ==> !more[k].Submit?
    requires AnswerAfter(labels, more + [SubmitterMoves]) == Refused
    ensures Run(labels + more + [SubmitterMoves]).pending == Run(labels + more).pending
    ensures Run(labels + more + [SubmitterMoves]).flag == Run(labels + more).flag
  {
    CallIsAnswered(labels, more);
    assert (more + [SubmitterMoves])[..|more|] == more;
    RunSnoc(labels + more, SubmitterMoves);
  }

  // -------------------------------------------------------------- exactly once

  /** How many steps the loop task has taken. */
  function Pumps(more: seq<Label>): nat
  {
    if more == [] then 0
    else Pumps(more[..|more| - 1]) + if more[|more| - 1].PumperMoves? then 1 else 0
  }

  /** How far the loop task has got with the submission that waits. */
  function Got(s: State): nat
  {
    match s.pumper
    case Applying(got) => 1 + |got|
    case _ => 0
  }

  /** While it waits, every step of the loop task gets further, and none of the other task's
      matters. */
  lemma WaitingGetsOn(s: State, l: Label)
    requires Inv(s) && Waiting(s)
    ensures var t := Step(s, l);
      && |s.applied| <= |t.applied|
      && (Waiting(t) ==> t.applied == s.applied && Got(t) == Got(s) + if l.PumperMoves? then 1 else 0)
      && (!Waiting(t) ==> |t.applied| == |s.applied| + 1)
  {
  }

  lemma NeverUnapplied(s: State, l: Label)
    ensures |s.applied| <= |Step(s, l).applied|
  {
  }

  /** A wait ends after at most as many steps of the loop task as the slot has bytes. */
  lemma WaitIsShort(s: State)
    requires Inv(s) && Waiting(s)
    ensures Got(s) <= BLOB_MAX
  {
  }

  /** From a submission that waits: it is applied, or still waits and the loop task has got one
      step further for each step it took. */
  lemma {:induction false} WaitRun(labels: seq<Label>, more: seq<Label>)
    requires Waiting(Run(labels))
    ensures var s, t := Run(labels), Run(labels + more);
      || |t.applied| > |s.applied|
      || (Waiting(t) && |t.applied| == |s.applied| && Got(t) == Got(s) + Pumps(more))
    decreases |more|
  {
    if more == [] {
      assert labels + more == labels;
    } else {
      var n := |more| - 1;
      WaitRun(labels, more[..n]);
      AppliedInOrder(labels + more[..n]);
      assert labels + more == labels + more[..n] + [more[n]];
      RunSnoc(labels + more[..n], more[n]);
      NeverUnapplied(Run(labels + more[..n]), more[n]);
      if Waiting(Run(labels + more[..n])) {
        WaitingGetsOn(Run(labels + more[..n]), more[n]);
      }
    }
  }

  lemma {:induction false} AppliedOnlyGrows(labels: seq<Label>, more: seq<Label>)
    ensures |Run(labels).applied| <= |Run(labels + more).applied|
    decreases |more|
  {
    if more == [] {
      assert labels + more == labels;
    } else {
      var n := |more| - 1;
      AppliedOnlyGrows(labels, more[..n]);
      assert labels + more == labels + more[..n] + [more[n]];
      RunSnoc(labels + more[..n], more[n]);
      NeverUnapplied(Run(labels + more[..n]), more[n]);
    }
  }

  /** Every submission accepted is applied: once the loop task has taken one step more than the
      slot has bytes, however the other task's steps and calls fall between them, all that was
      accepted before has been applied. With AppliedInOrder, exactly once and in order. */
  lemma EveryOneIsApplied(labels: seq<Label>, more: seq<Label>)
    requires Pumps(more) > BLOB_MAX
    ensures var s, t := Run(labels), Run(labels + more);
      && |t.applied| >= |s.accepted| && |t.accepted| >= |s.accepted|
      && forall k :: 0 <= k < |s.accepted| ==> t.applied[k] == Base32.CString(t.accepted[k])
  {
    AppliedInOrder(labels);
    AppliedInOrder(labels + more);
    AppliedOnlyGrows(labels, more);
    if Waiting(Run(labels)) {
      WaitRun(labels, more);
      if Waiting(Run(labels + more)) {
        WaitIsShort(Run(labels + more));
      }
    }
  }

  // ---------------------------------------------------- undisturbed runs of one task

  /** One task alone, n steps. */
  function Steps(s: State, l: Label, n: nat): State
  {
    if n == 0 then s else Step(Steps(s, l, n - 1), l)
  }

  lemma {:induction false} StepsAdd(s: State, l: Label, m: nat, n: nat)
    ensures Steps(s, l, m + n) == Steps(Steps(s, l, m), l, n)
    decreases n
  {
    if n != 0 {
      StepsAdd(s, l, m, n - 1);
    }
  }

  /** The slot after a submission. */
  function SlotWith(pending: seq<u8>, data: seq<u8>): seq<u8>
    requires |data| < |pending|
  {
    data + [0] + pending[|data| + 1..]
  }

  lemma {:induction false} CopyRun(s: State, data: seq<u8>, n: nat)
    requires |s.pending| == BLOB_MAX && s.submitter == Called(data) && !s.flag && n <= |data| < BLOB_MAX
    ensures Steps(s, SubmitterMoves, n + 1) == s.(pending := data[..n] + s.pending[n..], submitter := Copying(data, n))
    decreases n
  {
    if n == 0 {
      assert Steps(s, SubmitterMoves, 0) == s;
      assert data[..0] + s.pending[0..] == s.pending;
    } else {
      CopyRun(s, data, n - 1);
      var before := data[..n - 1] + s.pending[n - 1..];
      assert before[n - 1 := data[n - 1]] == data[..n] + s.pending[n..];
    }
  }

  /** A submission not disturbed does what submit does: the bytes and a NUL in the slot, the flag
      set, nothing else. */
  lemma SubmitRun(s: State, data: seq<u8>)
    requires |s.pending| == BLOB_MAX && s.submitter == Called(data) && !s.flag && |data| < BLOB_MAX
    ensures Steps(s, SubmitterMoves, |data| + 3)
         == s.(pending := SlotWith(s.pending, data), flag := true, submitter := Idle, accepted := s.accepted + [data])
  {
    CopyRun(s, data, |data|);
    var copied := data[..|data|] + s.pending[|data|..];
    assert copied[|data| := 0] == SlotWith(s.pending, data);
    StepsAdd(s, SubmitterMoves, |data| + 1, 2);
    TwoSteps(Steps(s, SubmitterMoves, |data| + 1), SubmitterMoves);
  }

  lemma TwoSteps(s: State, l: Label)
    ensures Steps(s, l, 2) == Step(Step(s, l), l)
  {
    assert Steps(s, l, 1) == Step(Steps(s, l, 0), l);
  }

  lemma {:induction false} ReadRun(s: State, text: seq<u8>, k: nat)
    requires |text| < |s.pending| && s.pending[..|text|] == text && s.flag && s.pumper == Resting
    requires (forall j :: 0 <= j < |text| ==> text[j] != 0) && k <= |text|
    ensures Steps(s, PumperMoves, k + 1) == s.(pumper := Applying(text[..k]))
    decreases k
  {
    if k == 0 {
      assert Steps(s, PumperMoves, 0) == s;
    } else {
      ReadRun(s, text, k - 1);
      assert s.pending[k - 1] == text[k - 1];
      assert text[..k] == text[..k - 1] + [text[k - 1]];
    }
  }

  lemma {:induction false} WipeRun(s: State, k: nat)
    requires s.pumper == Wiping(0) && k <= |s.pending|
    ensures Steps(s, PumperMoves, k) == s.(pending := Padding.Zeros(k) + s.pending[k..], pumper := Wiping(k))
    decreases k
  {
    if k == 0 {
      assert Padding.Zeros(0) + s.pending[0..] == s.pending;
    } else {
      WipeRun(s, k - 1);
      var before := Padding.Zeros(k - 1) + s.pending[k - 1..];
      assert before[k - 1 := 0] == Padding.Zeros(k) + s.pending[k..];
    }
  }

  /** How many steps applying a text of a given length takes. */
  function PumpLength(n: nat): nat
  {
    n + 2 + BLOB_MAX + 2
  }

  /** Reading up to the NUL applies the text. */
  lemma ApplyRun(s: State, text: seq<u8>)
    requires |text| < |s.pending| && s.flag && s.pumper == Resting && text == Base32.CString(s.pending)
    ensures Steps(s, PumperMoves, |text| + 2) == s.(pumper := Wiping(0), applied := s.applied + [text])
  {
    var n := |text|;
    ReadRun(s, text, n);
    assert text[..n] == text;
    assert Steps(s, PumperMoves, n + 2) == Step(Steps(s, PumperMoves, n + 1), PumperMoves);
  }

  /** Wiping the slot and clearing the flag. */
  lemma EraseRun(t: State)
    requires |t.pending| == BLOB_MAX && t.pumper == Wiping(0)
    ensures Steps(t, PumperMoves, BLOB_MAX + 2)
         == t.(pending := Padding.Zeros(BLOB_MAX), flag := false, pumper := Resting)
  {
    WipeRun(t, BLOB_MAX);
    assert Padding.Zeros(BLOB_MAX) + t.pending[BLOB_MAX..] == Padding.Zeros(BLOB_MAX);
    StepsAdd(t, PumperMoves, BLOB_MAX, 2);
    TwoSteps(Steps(t, PumperMoves, BLOB_MAX), PumperMoves);
  }

  /** A pump not disturbed does what pump does: the C string in the slot applied, the slot wiped,
      the flag cleared, nothing else. */
  lemma PumpRun(s: State, text: seq<u8>)
    requires |s.pending| == BLOB_MAX && s.flag && s.pumper == Resting
    requires text == Base32.CString(s.pending) && |text| < BLOB_MAX
    ensures Steps(s, PumperMoves, PumpLength(|text|))
         == s.(pending := Padding.Zeros(BLOB_MAX), flag := false, pumper := Resting, applied := s.applied + [text])
  {
    ApplyRun(s, text);
    var t := s.(pumper := Wiping(0), applied := s.applied + [text]);
    EraseRun(t);
    StepsAdd(s, PumperMoves, |text| + 2, BLOB_MAX + 2);
  }
}
