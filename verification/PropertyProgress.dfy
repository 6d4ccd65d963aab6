/**
 Progress of the property area's protocol: in every reachable state a write that has begun can
 be completed, and a reader can finish on its own unless a write has overtaken it.
 */
module PropertyProgress {
  import opened Common
  import opened PropertyArea

  predicate OwnSteps(r: nat, steps: seq<Step>) {
    forall step <- steps :: !(step.BeginWrite? || step.CopyIn? || step.EndWrite?) && step.r == r
  }

  lemma ExecOneMore(s: State, steps: seq<Step>, step: Step)
    ensures Exec(s, steps + [step]) == Apply(Exec(s, steps), step)
  {
    assert (steps + [step])[..|steps|] == steps;
  }

  // ---- The writer ----

  function CopiesIn(n: nat): seq<Step> { seq(n, (i: nat) => CopyIn(i)) }

  lemma {:induction false} CopyInAll(s: State, n: nat)
    requires s.writer.Busy? && n <= |s.writer.text| <= |s.value|
    ensures var t := Exec(s, CopiesIn(n));
            && t.writer.Busy? && t.writer.text == s.writer.text && (forall i | 0 <= i < n :: i in t.writer.copied)
            && t == s.(value := t.value, writer := t.writer) && |t.value| == |s.value|
  {
    if n > 0 {
      CopyInAll(s, n - 1);
      assert CopiesIn(n) == CopiesIn(n - 1) + [CopyIn(n - 1)];
      ExecOneMore(s, CopiesIn(n - 1), CopyIn(n - 1));
    }
  }

  /** From every reachable state the writer's own steps complete a write that has begun. */
  lemma WriterFinishes(s: State, steps: seq<Step>)
    requires Init(s) && Exec(s, steps).writer.Busy?
    ensures var t := Exec(s, steps); var text := t.writer.text;
            var u := Exec(s, steps + CopiesIn(|text|) + [EndWrite]);
            && u.writer.Idle? && u.history == t.history + [text] && text <= u.value
            && u.begun == t.begun && u.readers == t.readers && !SerialDirty(u.serial)
  {
    hide Inv, CopiesIn;
    RunsKeepInv(s, steps);
    var t := Exec(s, steps);
    var n := |t.writer.text|;
    BusyValueFits(t);
    CopyInAll(t, n);
    ExecAppend(s, steps, CopiesIn(n));
    var all := steps + CopiesIn(n);
    ExecOneMore(s, all, EndWrite);
    RunsKeepInv(s, all + [EndWrite]);
    IdleFacts(Exec(s, all + [EndWrite]));
  }

  lemma BusyValueFits(t: State)
    requires Inv(t) && t.writer.Busy?
    ensures |t.writer.text| < |t.value|
  {
  }

  lemma IdleFacts(t: State)
    requires Inv(t) && t.writer.Idle?
    ensures t.begun == |t.history| - 1 && t.serial == CleanSerial(t, t.begun) && |t.value| == PROP_VALUE_MAX
    ensures t.history[t.begun] <= t.value
    ensures !SerialDirty(t.serial) && SerialValueLen(t.serial) == |t.history[t.begun]|
  {
    CleanSerialFacts(t, |t.history| - 1);
  }

  // ---- The readers ----

  function CopiesOut(r: nat, n: nat): seq<Step> { seq(n, (i: nat) => CopyOut(r, i)) }

  /** The state after steps of reader `r` alone: only its own entry differs. */
  function With(s: State, r: nat, rd: Reader): State
    requires r < |s.readers|
  {
    s.(readers := s.readers[r := rd])
  }

  lemma {:induction false} CopyOutAll(s: State, r: nat, n: nat) returns (local: map<nat, byte>)
    requires r < |s.readers| && s.readers[r].Step3?
    requires n <= SerialValueLen(s.readers[r].serial) + 1 && n <= |s.value|
    ensures forall i: nat | i < n :: i in local
    ensures Exec(s, CopiesOut(r, n)) == With(s, r, Step3(s.readers[r].serial, s.readers[r].began, local))
  {
    hide SerialValueLen;
    if n == 0 {
      local := s.readers[r].local;
      assert s.readers[r := s.readers[r]] == s.readers;
    } else {
      local := CopyOutAll(s, r, n - 1);
      assert CopiesOut(r, n) == CopiesOut(r, n - 1) + [CopyOut(r, n - 1)];
      ExecOneMore(s, CopiesOut(r, n - 1), CopyOut(r, n - 1));
      local := local[n - 1 := s.value[n - 1]];
    }
  }

  /** What a reader still has to do before it copies, when no write is in flight. */
  function Restart(r: nat, rd: Reader): seq<Step> {
    match rd
    case Step1 => [ReadSerial(r), TestDirty(r)]
    case Step2(serial, _) =>
      if SerialDirty(serial) then [TestDirty(r), ReadSerial(r), TestDirty(r)] else [TestDirty(r)]
    case _ => []
  }

  ghost predicate IsOvertaken(s: State, r: nat) { exists began :: Overtaken(s, r, began) }

  lemma OneStep(s: State, step: Step)
    ensures Exec(s, [step]) == Apply(s, step)
  {
    assert [step][..0] == [];
  }

  lemma ReadSerialRuns(t: State, r: nat)
    requires r < |t.readers| && t.readers[r].Step1?
    ensures Exec(t, [ReadSerial(r)]) == With(t, r, Step2(t.serial, t.begun))
  {
    OneStep(t, ReadSerial(r));
  }

  lemma TestDirtyRuns(t: State, r: nat)
    requires r < |t.readers| && t.readers[r].Step2?
    ensures var rd := t.readers[r];
            Exec(t, [TestDirty(r)]) ==
            With(t, r, if SerialDirty(rd.serial) then Step1 else Step3(rd.serial, rd.began, map[]))
  {
    OneStep(t, TestDirty(r));
  }

  lemma StartFromOne(t: State, r: nat)
    requires r < |t.readers| && t.readers[r].Step1? && !SerialDirty(t.serial)
    ensures Exec(t, [ReadSerial(r), TestDirty(r)]) == With(t, r, Step3(t.serial, t.begun, map[]))
  {
    hide Exec, SerialDirty;
    ReadSerialRuns(t, r);
    var t' := With(t, r, Step2(t.serial, t.begun));
    TestDirtyRuns(t', r);
    assert [ReadSerial(r), TestDirty(r)] == [ReadSerial(r)] + [TestDirty(r)];
    ExecAppend(t, [ReadSerial(r)], [TestDirty(r)]);
  }

  /** Without a write in flight a reader that was not overtaken gets to step 3 with the current serial. */
  lemma RestartRuns(t: State, r: nat)
    requires Inv(t) && t.writer.Idle? && r < |t.readers| && !t.readers[r].Done? && !IsOvertaken(t, r)
    ensures var u := Exec(t, Restart(r, t.readers[r]));
            && |u.readers| == |t.readers| && u.readers[r].Step3? && u.readers[r].began == t.begun
            && u == With(t, r, u.readers[r])
  {
    hide Inv, Exec, SerialDirty;
    IdleFacts(t);
    match t.readers[r]
    case Step1 => StartFromOne(t, r);
    case Step2(serial, began) =>
      TestDirtyRuns(t, r);
      if SerialDirty(serial) {
        var t' := With(t, r, Step1);
        StartFromOne(t', r);
        assert Restart(r, t.readers[r]) == [TestDirty(r)] + [ReadSerial(r), TestDirty(r)];
        ExecAppend(t, [TestDirty(r)], [ReadSerial(r), TestDirty(r)]);
      } else {
        BeganIsCurrent(t, r);
      }
    case Step3(serial, began, local) =>
      ExecNothing(t);
      BeganIsCurrent(t, r);
      assert t.readers[r := t.readers[r]] == t.readers;
  }

  lemma ExecNothing(t: State)
    ensures Exec(t, []) == t
  {
  }

  lemma BeganIsCurrent(t: State, r: nat)
    requires Inv(t) && t.writer.Idle? && r < |t.readers| && !IsOvertaken(t, r)
    requires t.readers[r].Step3? || (t.readers[r].Step2? && !SerialDirty(t.readers[r].serial))
    ensures t.readers[r].began == t.begun && t.readers[r].serial == t.serial
  {
    assert !Overtaken(t, r, t.readers[r].began);
    assert ReaderInv(t, t.readers[r]);
  }

  /** All the steps that reader `r` still takes when no write is in flight. */
  function Remaining(t: State, r: nat): seq<Step>
    requires r < |t.readers|
  {
    Restart(r, t.readers[r]) + CopiesOut(r, SerialValueLen(t.serial) + 1) + [Compare(r)]
  }

  lemma RemainingRuns(t: State, r: nat)
    requires Inv(t) && t.writer.Idle? && r < |t.readers| && !t.readers[r].Done? && !IsOvertaken(t, r)
    ensures var u := Exec(t, Remaining(t, r));
            && |u.readers| == |t.readers| && u == With(t, r, u.readers[r])
            && u.readers[r].Done? && u.readers[r].began == u.readers[r].ended == t.begun
            && u.readers[r].serial == t.serial
  {
    hide Inv, Exec, SerialValueLen, Restart;
    IdleFacts(t);
    var a, n := Restart(r, t.readers[r]), SerialValueLen(t.serial) + 1;
    RestartRuns(t, r);
    var u := Exec(t, a);
    KeptInv(t, a);
    NotOvertaken(u, r);
    BeganIsCurrent(u, r);
    var local := CopyOutAll(u, r, n);
    var v := Exec(u, CopiesOut(r, n));
    assert v == With(t, r, Step3(t.serial, t.begun, local));
    ExecAppend(t, a, CopiesOut(r, n));
    ExecAppend(t, a + CopiesOut(r, n), [Compare(r)]);
    OneStep(v, Compare(r));
  }

  lemma NotOvertaken(u: State, r: nat)
    requires r < |u.readers| && u.readers[r].Step3? && u.readers[r].began == u.begun
    ensures !IsOvertaken(u, r)
  {
  }

  lemma {:induction false} KeptInv(t: State, steps: seq<Step>)
    requires Inv(t)
    ensures Inv(Exec(t, steps))
  {
    hide Inv;
    if steps != [] {
      KeptInv(t, steps[..|steps| - 1]);
      var u, step := Exec(t, steps[..|steps| - 1]), steps[|steps| - 1];
      if Enabled(u, step) {
        if step.BeginWrite? || step.CopyIn? || step.EndWrite? { WriterStep(u, step); } else { ReaderStep(u, step); }
      }
    }
  }

  // ---- Main results ----

  lemma RemainingIsOwn(t: State, r: nat)
    requires r < |t.readers|
    ensures OwnSteps(r, Remaining(t, r)) && |Remaining(t, r)| <= SerialValueLen(t.serial) + 5
  {
    hide SerialDirty, SerialValueLen;
  }

  /**
   In every reachable state without a write in flight, a reader that no write has overtaken
   finishes by a few steps of its own, whether or not it has met a write before: it returns the
   current value, and nothing else changes.
   */
  lemma ReaderFinishes(s: State, steps: seq<Step>, r: nat)
    requires Init(s)
    requires var t := Exec(s, steps);
             t.writer.Idle? && r < |t.readers| && !t.readers[r].Done? && !IsOvertaken(t, r)
    ensures var t := Exec(s, steps); var own := Remaining(t, r); var u := Exec(t, own);
            && OwnSteps(r, own) && |own| <= SerialValueLen(t.serial) + 5
            && r < |u.readers| && u == t.(readers := t.readers[r := u.readers[r]])
            && u.readers[r].Done? && u.readers[r].began == u.readers[r].ended == t.begun < |t.history|
            && Returns(u.readers[r].local, |t.history[t.begun]|, t.history[t.begun])
  {
    hide Inv, Exec, Init, SerialValueLen, Remaining;
    RunsKeepInv(s, steps);
    var t := Exec(s, steps);
    RemainingRuns(t, r);
    RemainingIsOwn(t, r);
    IdleFacts(t);
    KeptInv(t, Remaining(t, r));
    ReturnsCurrent(Exec(t, Remaining(t, r)), r);
  }

  lemma ReturnsCurrent(u: State, r: nat)
    requires Inv(u) && r < |u.readers| && u.readers[r].Done? && u.readers[r].began == u.readers[r].ended
    ensures var rd := u.readers[r];
            rd.began < |u.history| && Returns(rd.local, SerialValueLen(rd.serial), u.history[rd.began])
  {
    assert ReaderInv(u, u.readers[r]);
  }

  ghost predicate CanFinish(t: State, r: nat) {
    exists own :: OwnSteps(r, own) && r < |Exec(t, own).readers| && Exec(t, own).readers[r].Done?
  }

  /** Reader `r` cannot return by steps of its own: it meets a write in flight, or was overtaken by one. */
  ghost predicate Blocked(t: State, r: nat) {
    && r < |t.readers|
    && (IsOvertaken(t, r)
        || (t.writer.Busy? && (t.readers[r].Step1? || (t.readers[r].Step2? && SerialDirty(t.readers[r].serial)))))
  }

  lemma BlockedWhenBusy(t: State, r: nat)
    requires Inv(t) && t.writer.Busy? && r < |t.readers| && !t.readers[r].Done?
    ensures Blocked(t, r)
  {
    var rd := t.readers[r];
    assert ReaderInv(t, rd);
    if rd.Step3? || (rd.Step2? && !SerialDirty(rd.serial)) {
      assert Overtaken(t, r, rd.began);
    }
  }

  lemma BusyIsDirty(t: State)
    requires Inv(t) && t.writer.Busy?
    ensures SerialDirty(t.serial)
  {
    CleanSerialFacts(t, t.begun - 1);
  }

  /** Fewer than 2^23 writes have begun since the reader's step 1. */
  predicate Recent(t: State, r: nat)
    requires r < |t.readers|
  {
    !t.readers[r].Step1? ==> t.begun - t.readers[r].began < COUNTER / 2
  }

  lemma OwnStepKeepsBlocked(t: State, step: Step, r: nat)
    requires Inv(t) && Blocked(t, r) && Recent(t, r)
    requires OwnSteps(r, [step])
    ensures Blocked(Apply(t, step), r) && Recent(Apply(t, step), r)
  {
    hide Inv, SerialDirty;
    assert step in [step];
    var u := Apply(t, step);
    assert u.begun == t.begun;
    if began :| Overtaken(t, r, began) {
      OvertakenStays(t, step, r, began);
      assert IsOvertaken(u, r);
    } else {
      BusyIsDirty(t);
    }
  }

  lemma {:induction false} BlockedStays(t: State, own: seq<Step>, r: nat)
    requires Inv(t) && Blocked(t, r) && Recent(t, r) && OwnSteps(r, own)
    ensures Blocked(Exec(t, own), r) && Recent(Exec(t, own), r)
  {
    hide Inv, Blocked, Recent;
    if own == [] {
      ExecNothing(t);
    } else {
      var init, last := own[..|own| - 1], own[|own| - 1];
      assert own == init + [last];
      BlockedStays(t, init, r);
      KeptInv(t, init);
      OwnStepKeepsBlocked(Exec(t, init), last, r);
    }
  }

  lemma BlockedReader(t: State, r: nat)
    requires Blocked(t, r)
    ensures r < |t.readers| && !t.readers[r].Done?
  {
  }

  /**
   When a reader can return by steps of its own, in every reachable state in which fewer than
   2^23 writes have begun since its step 1: exactly if no write is in flight and none has
   overtaken it.
   */
  lemma CanFinishIff(s: State, steps: seq<Step>, r: nat)
    requires Init(s)
    requires r < |Exec(s, steps).readers| && !Exec(s, steps).readers[r].Done? && Recent(Exec(s, steps), r)
    ensures CanFinish(Exec(s, steps), r) <==> Exec(s, steps).writer.Idle? && !IsOvertaken(Exec(s, steps), r)
  {
    hide Inv, Exec, Init, Recent, Blocked, Remaining;
    RunsKeepInv(s, steps);
    var t := Exec(s, steps);
    if t.writer.Idle? && !IsOvertaken(t, r) {
      ReaderFinishes(s, steps, r);
      assert CanFinish(t, r);
    } else {
      if t.writer.Busy? { BlockedWhenBusy(t, r); } else { OvertakenIsBlocked(t, r); }
      forall own | OwnSteps(r, own) ensures r < |Exec(t, own).readers| && !Exec(t, own).readers[r].Done? {
        BlockedStays(t, own, r);
        BlockedReader(Exec(t, own), r);
      }
    }
  }

  lemma OvertakenIsBlocked(t: State, r: nat)
    requires IsOvertaken(t, r)
    ensures Blocked(t, r)
  {
  }
}
