/**
 The property area's lock-free protocol: one writer, many readers, and a serial word
 that packs the length of the value in its top byte and a wrapping 24-bit counter below.

 Every memory access is one atomic step, including every single byte of the two
 memcpy calls (in any order), and a run is an arbitrary interleaving of those steps.
 */
module PropertyArea {
  import opened Common

  const COUNTER: nat := 0x100_0000
  const PROP_VALUE_MAX: nat := 92

  function SerialValueLen(serial: nat): nat { serial / COUNTER }

  predicate SerialDirty(serial: nat) { serial % 2 == 1 }

  type Text = t: seq<byte> | |t| < PROP_VALUE_MAX witness []

  /** Idle, or between step 1 and step 3 with the indices copied so far. */
  datatype Writer = Idle | Busy(text: Text, copied: set<nat>)

  /**
   A reader's program counter. `began` (and `ended`) record how many writes had begun when
   the reader executed step 1 (and its successful step 4).
   */
  datatype Reader =
    | Step1
    | Step2(serial: nat, began: nat)
    | Step3(serial: nat, began: nat, local: map<nat, byte>)
    | Done(serial: nat, began: nat, ended: nat, local: map<nat, byte>)

  /**
   `serial` and `value` are the shared memory. `history` lists the values that were ever
   completely written, the initial one first; `begun` counts the writes that passed step 1;
   `origin` is the counter the area started with.
   */
  datatype State = State(
    serial: nat, value: seq<byte>, writer: Writer, readers: seq<Reader>,
    history: seq<Text>, begun: nat, origin: nat)

  datatype Step =
    | BeginWrite(text: Text)
    | CopyIn(i: nat)
    | EndWrite
    | ReadSerial(r: nat)
    | TestDirty(r: nat)
    | CopyOut(r: nat, i: nat)
    | Compare(r: nat)

  predicate Init(s: State) {
    && |s.value| == PROP_VALUE_MAX
    && s.origin < COUNTER && s.origin % 2 == 0
    && |s.history| == 1 && s.begun == 0 && s.writer == Idle
    && s.serial == |s.history[0]| * COUNTER + s.origin
    && s.value[..|s.history[0]|] == s.history[0]
    && forall r | 0 <= r < |s.readers| :: s.readers[r] == Step1
  }

  /** Whether a step can be taken now; a scheduler that picks a disabled step changes nothing. */
  predicate Enabled(s: State, step: Step) {
    match step
    case BeginWrite(_) => s.writer.Idle?
    case CopyIn(i) => s.writer.Busy? && i < |s.writer.text| && i < |s.value|
    case EndWrite => s.writer.Busy? && forall i | 0 <= i < |s.writer.text| :: i in s.writer.copied
    case ReadSerial(r) => r < |s.readers| && s.readers[r].Step1?
    case TestDirty(r) => r < |s.readers| && s.readers[r].Step2?
    case CopyOut(r, i) =>
      r < |s.readers| && s.readers[r].Step3? && i <= SerialValueLen(s.readers[r].serial) && i < |s.value|
    case Compare(r) =>
      && r < |s.readers| && s.readers[r].Step3?
      && forall i: nat | i <= SerialValueLen(s.readers[r].serial) :: i in s.readers[r].local
  }

  function Apply(s: State, step: Step): State {
    if !Enabled(s, step) then s else
      match step
      case BeginWrite(text) =>
        s.(serial := s.serial - s.serial % 2 + 1, writer := Busy(text, {}), begun := s.begun + 1)
      case CopyIn(i) =>
        s.(value := s.value[i := s.writer.text[i]], writer := Busy(s.writer.text, s.writer.copied + {i}))
      case EndWrite =>
        s.(serial := |s.writer.text| * COUNTER + (s.serial + 1) % COUNTER, writer := Idle,
           history := s.history + [s.writer.text])
      case ReadSerial(r) =>
        s.(readers := s.readers[r := Step2(s.serial, s.begun)])
      case TestDirty(r) =>
        var rd := s.readers[r];
        s.(readers := s.readers[r := if SerialDirty(rd.serial) then Step1 else Step3(rd.serial, rd.began, map[])])
      case CopyOut(r, i) =>
        var rd := s.readers[r];
        s.(readers := s.readers[r := Step3(rd.serial, rd.began, rd.local[i := s.value[i]])])
      case Compare(r) =>
        var rd := s.readers[r];
        // A mismatch goes back to step 2, which tests the serial that was read in step 1.
        s.(readers := s.readers[r := if s.serial != rd.serial then Step2(rd.serial, rd.began)
                                     else Done(rd.serial, rd.began, s.begun, rd.local)])
  }

  function Exec(s: State, steps: seq<Step>): State {
    if steps == [] then s else Apply(Exec(s, steps[..|steps| - 1]), steps[|steps| - 1])
  }

  // ---- The invariant ----

  function Tick(origin: nat, completed: nat): nat { (origin + 2 * completed) % COUNTER }

  /** The serial of a clean area whose last completed write is number `k`. */
  function CleanSerial(s: State, k: nat): nat
    requires k < |s.history|
  {
    |s.history[k]| * COUNTER + Tick(s.origin, k)
  }

  predicate Agrees(local: map<nat, byte>, text: Text) {
    forall i | 0 <= i < |text| && i in local :: local[i] == text[i]
  }

  predicate Returns(local: map<nat, byte>, len: nat, text: Text) {
    |text| == len && (forall i | 0 <= i < len :: i in local && local[i] == text[i])
  }

  predicate WriterInv(s: State) {
    && |s.value| == PROP_VALUE_MAX
    && s.origin < COUNTER && s.origin % 2 == 0
    && 0 < |s.history|
    && match s.writer
       case Idle =>
         && s.begun == |s.history| - 1
         && s.serial == CleanSerial(s, s.begun)
         && s.value[..|s.history[s.begun]|] == s.history[s.begun]
       case Busy(text, copied) =>
         && s.begun == |s.history|
         && s.serial == CleanSerial(s, s.begun - 1) + 1
         && forall i | 0 <= i < |text| && i in copied :: s.value[i] == text[i]
  }

  /** A clean serial in a reader's hand names the write that was current at its step 1. */
  predicate Witnessed(s: State, serial: nat, began: nat) {
    began < |s.history| && began <= s.begun && serial == CleanSerial(s, began)
  }

  predicate ReaderInv(s: State, rd: Reader) {
    match rd
    case Step1 => true
    case Step2(serial, began) => !SerialDirty(serial) ==> Witnessed(s, serial, began)
    case Step3(serial, began, local) =>
      Witnessed(s, serial, began) && (s.begun == began ==> Agrees(local, s.history[began]))
    case Done(serial, began, ended, local) =>
      && began <= ended && Witnessed(s, serial, began)
      && (ended - began < COUNTER / 2 ==> Returns(local, SerialValueLen(serial), s.history[began]) && ended == began)
  }

  predicate Inv(s: State) {
    WriterInv(s) && forall r | 0 <= r < |s.readers| :: ReaderInv(s, s.readers[r])
  }

  lemma CleanSerialFacts(s: State, k: nat)
    requires k < |s.history| && s.origin % 2 == 0
    ensures !SerialDirty(CleanSerial(s, k))
    ensures SerialValueLen(CleanSerial(s, k)) == |s.history[k]|
    ensures CleanSerial(s, k) % COUNTER == Tick(s.origin, k)
  {
  }

  /** Two clean serials fewer than 2^23 writes apart are equal only if no write separates them. */
  lemma SerialsDistinguish(s: State, j: nat, k: nat)
    requires j <= k < |s.history| && k - j < COUNTER / 2 && s.origin % 2 == 0
    requires CleanSerial(s, j) == CleanSerial(s, k)
    ensures j == k
  {
    CleanSerialFacts(s, j);
    CleanSerialFacts(s, k);
  }

  lemma ReaderFramed(s: State, t: State, rd: Reader)
    requires ReaderInv(s, rd)
    requires s.history <= t.history && s.begun <= t.begun && s.origin == t.origin
    ensures ReaderInv(t, rd)
  {
  }

  lemma NextTick(origin: nat, k: nat, len: nat)
    ensures (len * COUNTER + Tick(origin, k) + 1 + 1) % COUNTER == Tick(origin, k + 1)
  {
    var q := (origin + 2 * k) / COUNTER;
    assert len * COUNTER + Tick(origin, k) + 2 == (len - q) * COUNTER + (origin + 2 * (k + 1));
  }

  lemma EndWriteKeepsWriterInv(s: State)
    requires WriterInv(s) && Enabled(s, EndWrite)
    ensures WriterInv(Apply(s, EndWrite))
  {
    hide Tick;
    var t := Apply(s, EndWrite);
    var k := |s.history| - 1;
    NextTick(s.origin, k, |s.history[k]|);
    assert t.history[k + 1] == s.writer.text;
    assert t.value[..|s.writer.text|] == s.writer.text;
  }

  lemma WriterStep(s: State, step: Step)
    requires Inv(s) && Enabled(s, step) && (step.BeginWrite? || step.CopyIn? || step.EndWrite?)
    ensures Inv(Apply(s, step))
  {
    var t := Apply(s, step);
    assert WriterInv(t) by {
      if step.EndWrite? { EndWriteKeepsWriterInv(s); } else { CleanSerialFacts(s, |s.history| - 1); }
    }
    forall r | 0 <= r < |t.readers| ensures ReaderInv(t, t.readers[r]) {
      ReaderFramed(s, t, s.readers[r]);
    }
  }

  lemma ReadSerialKeepsReaderInv(s: State, r: nat)
    requires Inv(s) && Enabled(s, ReadSerial(r))
    ensures ReaderInv(s, Step2(s.serial, s.begun))
  {
    CleanSerialFacts(s, |s.history| - 1);
  }

  lemma CopyOutKeepsReaderInv(s: State, rd: Reader, i: nat)
    requires WriterInv(s) && ReaderInv(s, rd) && rd.Step3? && i < |s.value|
    ensures ReaderInv(s, Step3(rd.serial, rd.began, rd.local[i := s.value[i]]))
  {
    if s.begun == rd.began {
      CleanSerialFacts(s, rd.began);
      var text := s.history[rd.began];
      assert s.writer.Idle?;
      assert forall j | 0 <= j < |text| :: s.value[..|text|][j] == s.value[j];
    }
  }

  lemma CompareKeepsReaderInv(s: State, rd: Reader)
    requires WriterInv(s) && ReaderInv(s, rd) && rd.Step3? && s.serial == rd.serial
    requires forall i: nat | i <= SerialValueLen(rd.serial) :: i in rd.local
    ensures ReaderInv(s, Done(rd.serial, rd.began, s.begun, rd.local))
  {
    CleanSerialFacts(s, rd.began);
    CleanSerialFacts(s, |s.history| - 1);
    if s.begun - rd.began < COUNTER / 2 {
      SerialsDistinguish(s, rd.began, s.begun);
    }
  }

  lemma ReaderStep(s: State, step: Step)
    requires Inv(s) && Enabled(s, step) && !(step.BeginWrite? || step.CopyIn? || step.EndWrite?)
    ensures Inv(Apply(s, step))
  {
    var t := Apply(s, step);
    var rd := s.readers[step.r];
    assert ReaderInv(s, t.readers[step.r]) by {
      if step.ReadSerial? {
        ReadSerialKeepsReaderInv(s, step.r);
      } else if step.CopyOut? {
        CopyOutKeepsReaderInv(s, rd, step.i);
      } else if step.Compare? && s.serial == rd.serial {
        CompareKeepsReaderInv(s, rd);
      }
    }
    hide SerialDirty, SerialValueLen, CleanSerial, Agrees, Returns;
    forall r | 0 <= r < |t.readers| ensures ReaderInv(t, t.readers[r]) {
      ReaderFramed(s, t, if r == step.r then t.readers[r] else s.readers[r]);
    }
  }

  lemma {:induction false} RunsKeepInv(s: State, steps: seq<Step>)
    requires Init(s)
    ensures Inv(Exec(s, steps))
  {
    if steps != [] {
      RunsKeepInv(s, steps[..|steps| - 1]);
      var t, step := Exec(s, steps[..|steps| - 1]), steps[|steps| - 1];
      if Enabled(t, step) {
        if step.BeginWrite? || step.CopyIn? || step.EndWrite? { WriterStep(t, step); } else { ReaderStep(t, step); }
      }
    }
  }

  // ---- Main results ----

  /**
   Safety over every interleaving: a reader during which fewer than 2^23 writes began returns,
   in its first SERIAL_VALUE_LEN bytes, one completely written value, and it is the value that
   was current at its step 1 and still current at its step 4.
   */
  lemma ReadersReturnCompleteValues(s: State, steps: seq<Step>, r: nat)
    requires Init(s)
    requires r < |Exec(s, steps).readers| && Exec(s, steps).readers[r].Done?
    requires Exec(s, steps).readers[r].ended - Exec(s, steps).readers[r].began < COUNTER / 2
    ensures var t := Exec(s, steps); var rd := t.readers[r];
            && rd.began < |t.history| && rd.ended == rd.began
            && Returns(rd.local, SerialValueLen(rd.serial), t.history[rd.began])
  {
    RunsKeepInv(s, steps);
  }

  /** A comparison after a write has begun fails, as long as fewer than 2^23 writes have begun. */
  lemma LosingCompare(t: State, r: nat)
    requires Inv(t) && r < |t.readers| && t.readers[r].Step3?
    requires 0 < t.begun - t.readers[r].began < COUNTER / 2
    ensures t.serial != t.readers[r].serial && !SerialDirty(t.readers[r].serial)
  {
    var rd := t.readers[r];
    CleanSerialFacts(t, rd.began);
    CleanSerialFacts(t, |t.history| - 1);
    if t.serial == rd.serial {
      SerialsDistinguish(t, rd.began, t.begun);
    }
  }

  /**
   What a comparison decides, as long as fewer than 2^23 writes have begun since the reader's
   step 1: the reader returns if and only if none has.
   */
  lemma CompareDecidesIff(s: State, steps: seq<Step>, r: nat)
    requires Init(s) && Enabled(Exec(s, steps), Compare(r))
    requires Exec(s, steps).begun - Exec(s, steps).readers[r].began < COUNTER / 2
    ensures var t := Exec(s, steps);
            Apply(t, Compare(r)).readers[r].Done? <==> t.begun == t.readers[r].began
  {
    hide Exec, Init;
    RunsKeepInv(s, steps);
    var t := Exec(s, steps);
    if t.begun != t.readers[r].began { LosingCompare(t, r); }
  }

  /** Reader `r` is in its loop with the serial of write `began`, and a later write has begun. */
  predicate Overtaken(s: State, r: nat, began: nat) {
    && r < |s.readers| && began < s.begun
    && var rd := s.readers[r];
       (rd.Step3? || (rd.Step2? && !SerialDirty(rd.serial))) && rd.began == began
  }

  lemma OvertakenStays(s: State, step: Step, r: nat, began: nat)
    requires Inv(s) && Overtaken(s, r, began) && Apply(s, step).begun - began < COUNTER / 2
    ensures Overtaken(Apply(s, step), r, began)
  {
    hide Inv, SerialDirty;
    BegunGrows(s, step);
    if step == Compare(r) && Enabled(s, step) {
      assert s.begun == Apply(s, step).begun;
      LosingCompare(s, r);
    }
  }

  lemma BegunGrows(s: State, step: Step)
    ensures s.begun <= Apply(s, step).begun
  {
  }

  /**
   The rules send a failed comparison to step 2, not to step 1, so the serial is never read
   again: a reader overtaken by one write cannot return before the counter has wrapped.
   */
  lemma {:induction false} OvertakenReaderNeverReturns(
    s: State, before: seq<Step>, more: seq<Step>, r: nat, began: nat)
    requires Init(s) && Overtaken(Exec(s, before), r, began)
    requires Exec(s, before + more).begun - began < COUNTER / 2
    ensures Overtaken(Exec(s, before + more), r, began)
  {
    if more == [] {
      assert before + more == before;
    } else {
      var all, init := before + more, more[..|more| - 1];
      assert all[..|all| - 1] == before + init;
      var t := Exec(s, before + init);
      BegunGrows(t, more[|more| - 1]);
      OvertakenReaderNeverReturns(s, before, init, r, began);
      RunsKeepInv(s, before + init);
      OvertakenStays(t, more[|more| - 1], r, began);
    }
  }

  /** One write during its loop overtakes a reader: from here on, it cannot return before the wrap. */
  lemma WriteOvertakesReader(a: byte, b: Text)
    ensures Init(TornStart(a))
    ensures Overtaken(Exec(TornStart(a), [ReadSerial(0), TestDirty(0), BeginWrite(b)]), 0, 0)
  {
    var s := TornStart(a);
    assert s.value[..2] == [a, a];
    ThreeSteps(s, ReadSerial(0), TestDirty(0), BeginWrite(b));
    var s1 := s.(readers := [Step2(2 * COUNTER, 0)]);
    assert Apply(s, ReadSerial(0)) == s1;
    var s2 := s.(readers := [Step3(2 * COUNTER, 0, map[])]);
    assert Apply(s1, TestDirty(0)) == s2;
  }

  // ---- The bound of 2^23 is exact ----

  function Rewrite(text: Text): seq<Step>
    requires |text| == 2
  {
    [BeginWrite(text), CopyIn(0), CopyIn(1), EndWrite]
  }

  function Rewrites(text: Text, k: nat): seq<Step>
    requires |text| == 2
  {
    if k == 0 then [] else Rewrites(text, k - 1) + Rewrite(text)
  }

  function Copies(text: Text, k: nat): seq<Text> { seq(k, i => text) }

  lemma {:induction false} ExecAppend(s: State, a: seq<Step>, b: seq<Step>)
    ensures Exec(s, a + b) == Exec(Exec(s, a), b)
  {
    if b == [] {
      assert a + b == a;
    } else {
      assert (a + b)[..|a + b| - 1] == a + b[..|b| - 1];
      ExecAppend(s, a, b[..|b| - 1]);
    }
  }

  lemma ThreeSteps(s: State, a: Step, b: Step, c: Step)
    ensures Exec(s, [a, b, c]) == Apply(Apply(Apply(s, a), b), c)
  {
    assert [a, b, c][..2] == [a, b] && [a, b][..1] == [a] && [a][..0] == [];
    assert Exec(s, [a]) == Apply(s, a);
    assert Exec(s, [a, b]) == Apply(Exec(s, [a]), b);
  }

  predicate Rewritable(s: State) {
    s.writer.Idle? && |s.value| == PROP_VALUE_MAX && s.serial == 2 * COUNTER + s.serial % COUNTER && s.serial % 2 == 0
  }

  function Rewritten(s: State, text: Text, k: nat): State
    requires |text| == 2 && 2 <= |s.value|
  {
    State(2 * COUNTER + (s.serial + 2 * k) % COUNTER,
          if k == 0 then s.value else s.value[0 := text[0]][1 := text[1]],
          s.writer, s.readers, s.history + Copies(text, k), s.begun + k, s.origin)
  }

  lemma TickTwice(serial: nat, k: nat)
    ensures var t := 2 * COUNTER + (serial + 2 * k) % COUNTER;
            t % COUNTER == t - 2 * COUNTER && (t + 2) % COUNTER == (serial + 2 * (k + 1)) % COUNTER
            && (serial % 2 == 0 ==> t % 2 == 0)
  {
  }

  lemma OneRewrite(s: State, text: Text)
    requires |text| == 2 && Rewritable(s)
    ensures Exec(s, Rewrite(text)) == Rewritten(s, text, 1)
  {
    var a, b, c, d := BeginWrite(text), CopyIn(0), CopyIn(1), EndWrite;
    assert Rewrite(text)[..3] == [a, b, c];
    ThreeSteps(s, a, b, c);
    var s1 := s.(serial := s.serial + 1, writer := Busy(text, {}), begun := s.begun + 1);
    assert Apply(s, a) == s1;
    var s2 := s1.(value := s.value[0 := text[0]], writer := Busy(text, {0}));
    assert Apply(s1, b) == s2 by { assert {} + {0} == {0}; }
    var s3 := s2.(value := s.value[0 := text[0]][1 := text[1]], writer := Busy(text, {0, 1}));
    assert Apply(s2, c) == s3 by { assert {0} + {1} == {0, 1}; }
    assert Copies(text, 1) == [text];
    assert Apply(s3, d) == Rewritten(s, text, 1);
  }

  lemma RewrittenOnce(s: State, text: Text, k: nat)
    requires |text| == 2 && Rewritable(s)
    ensures Rewritable(Rewritten(s, text, k))
    ensures Rewritten(Rewritten(s, text, k), text, 1) == Rewritten(s, text, k + 1)
  {
    TickTwice(s.serial, k);
    var t := Rewritten(s, text, k);
    assert s.history + Copies(text, k) + Copies(text, 1) == s.history + Copies(text, k + 1);
    assert t.value[0 := text[0]][1 := text[1]] == s.value[0 := text[0]][1 := text[1]];
  }

  lemma {:induction false} ManyRewrites(s: State, text: Text, k: nat)
    requires |text| == 2 && Rewritable(s)
    ensures Exec(s, Rewrites(text, k)) == Rewritten(s, text, k)
  {
    if k == 0 {
      assert s.history + Copies(text, 0) == s.history;
    } else {
      ManyRewrites(s, text, k - 1);
      ExecAppend(s, Rewrites(text, k - 1), Rewrite(text));
      RewrittenOnce(s, text, k - 1);
      OneRewrite(Rewritten(s, text, k - 1), text);
    }
  }

  function TornStart(a: byte): State {
    State(2 * COUNTER, seq(PROP_VALUE_MAX, i => a), Idle, [Step1], [[a, a]], 0, 0)
  }

  function TornRun(text: Text, k: nat): seq<Step>
    requires |text| == 2
  {
    [ReadSerial(0), TestDirty(0), CopyOut(0, 0)] + Rewrites(text, k) + [CopyOut(0, 1), CopyOut(0, 2), Compare(0)]
  }

  /** The reader has read the serial and the first byte. */
  lemma TornBegin(a: byte)
    ensures Init(TornStart(a))
    ensures Exec(TornStart(a), [ReadSerial(0), TestDirty(0), CopyOut(0, 0)]) ==
            TornStart(a).(readers := [Step3(2 * COUNTER, 0, map[0 := a])])
  {
    var s := TornStart(a);
    assert s.value[..2] == [a, a];
    ThreeSteps(s, ReadSerial(0), TestDirty(0), CopyOut(0, 0));
    assert Apply(s, ReadSerial(0)) == s.(readers := [Step2(2 * COUNTER, 0)]);
    assert Apply(s.(readers := [Step2(2 * COUNTER, 0)]), TestDirty(0)) == s.(readers := [Step3(2 * COUNTER, 0, map[])]);
  }

  lemma StartRuns(s: State)
    requires s.readers == [Step1] && !SerialDirty(s.serial)
    ensures Apply(Apply(s, ReadSerial(0)), TestDirty(0)) == s.(readers := [Step3(s.serial, s.begun, map[])])
  {
    hide SerialDirty;
    var s1 := s.(readers := [Step2(s.serial, s.begun)]);
    assert Apply(s, ReadSerial(0)) == s1;
    assert Apply(s1, TestDirty(0)) == s.(readers := [Step3(s.serial, s.begun, map[])]);
  }

  lemma CopyOutRuns(s: State, serial: nat, began: nat, local: map<nat, byte>, i: nat)
    requires s.readers == [Step3(serial, began, local)] && i <= SerialValueLen(serial) && i < |s.value|
    ensures Apply(s, CopyOut(0, i)) == s.(readers := [Step3(serial, began, local[i := s.value[i]])])
  {
    hide SerialValueLen;
  }

  lemma CompareRuns(s: State, serial: nat, began: nat, local: map<nat, byte>)
    requires s.readers == [Step3(serial, began, local)] && s.serial == serial
    requires forall i: nat | i <= SerialValueLen(serial) :: i in local
    ensures Apply(s, Compare(0)) == s.(readers := [Done(serial, began, s.begun, local)])
  {
    hide SerialValueLen;
  }

  /** The reader copies the remaining bytes and finds the serial it started with. */
  lemma TornEnd(s: State, a: byte)
    requires s.serial == 2 * COUNTER && |s.value| == PROP_VALUE_MAX
    requires s.readers == [Step3(2 * COUNTER, 0, map[0 := a])]
    ensures Exec(s, [CopyOut(0, 1), CopyOut(0, 2), Compare(0)]) ==
            s.(readers := [Done(2 * COUNTER, 0, s.begun, map[0 := a, 1 := s.value[1], 2 := s.value[2]])])
  {
    hide Apply, Exec;
    ThreeSteps(s, CopyOut(0, 1), CopyOut(0, 2), Compare(0));
    var first: map<nat, byte> := map[0 := a];
    var second := first[1 := s.value[1]];
    var full := second[2 := s.value[2]];
    CopyOutRuns(s, 2 * COUNTER, 0, first, 1);
    CopyOutRuns(s.(readers := [Step3(2 * COUNTER, 0, second)]), 2 * COUNTER, 0, second, 2);
    CompareRuns(s.(readers := [Step3(2 * COUNTER, 0, full)]), 2 * COUNTER, 0, full);
    assert full == map[0 := a, 1 := s.value[1], 2 := s.value[2]];
  }

  /** With exactly 2^23 writes in between, a reader returns bytes of two different values. */
  lemma WrapAroundTearsARead(a: byte, b: byte, k: nat)
    requires a != b && k == COUNTER / 2
    ensures Init(TornStart(a))
    ensures var t := Exec(TornStart(a), TornRun([b, b], k));
            && |t.readers| == 1 && t.readers[0].Done? && t.readers[0].ended - t.readers[0].began == k
            && forall j | 0 <= j < |t.history| ::
                 !Returns(t.readers[0].local, SerialValueLen(t.readers[0].serial), t.history[j])
  {
    var s := TornStart(a);
    var first, last := [ReadSerial(0), TestDirty(0), CopyOut(0, 0)], [CopyOut(0, 1), CopyOut(0, 2), Compare(0)];
    TornBegin(a);
    var s1 := s.(readers := [Step3(2 * COUNTER, 0, map[0 := a])]);
    var s2 := Rewritten(s1, [b, b], k);
    ManyRewrites(s1, [b, b], k);
    ExecAppend(s, first, Rewrites([b, b], k));
    ExecAppend(s, first + Rewrites([b, b], k), last);
    TornEnd(s2, a);
    var t := Exec(s, TornRun([b, b], k));
    assert t.readers == [Done(2 * COUNTER, 0, k, map[0 := a, 1 := b, 2 := s2.value[2]])];
    forall j | 0 <= j < |t.history|
      ensures !Returns(t.readers[0].local, SerialValueLen(t.readers[0].serial), t.history[j])
    {
      assert t.history[j] == if j == 0 then [a, a] else [b, b];
      assert t.readers[0].local[0] == a && t.readers[0].local[1] == b;
    }
  }

  lemma OneByteWritten(a: byte, b: byte)
    ensures Exec(TornStart(a), [BeginWrite([b]), CopyIn(0), EndWrite]) ==
            State(COUNTER + 2, TornStart(a).value[0 := b], Idle, [Step1], [[a, a], [b]], 1, 0)
  {
    var s := TornStart(a);
    ThreeSteps(s, BeginWrite([b]), CopyIn(0), EndWrite);
    var s1 := s.(serial := 2 * COUNTER + 1, writer := Busy([b], {}), begun := 1);
    assert Apply(s, BeginWrite([b])) == s1;
    var s2 := s1.(value := s.value[0 := b], writer := Busy([b], {0}));
    assert Apply(s1, CopyIn(0)) == s2 by { assert {} + {0} == {0}; }
    assert [[a, a]] + [[b]] == [[a, a], [b]];
  }

  // ---- The byte behind the value ----

  /** Byte `i` of the last value that is longer than `i`, or what the area held there at first. */
  function Left(first: seq<byte>, history: seq<Text>, i: nat): byte
    requires i < |first|
  {
    if history == [] then first[i]
    else if i < |history[|history| - 1]| then history[|history| - 1][i]
    else Left(first, history[..|history| - 1], i)
  }

  predicate ValueLeft(first: seq<byte>, s: State)
    requires |first| == PROP_VALUE_MAX
  {
    && |s.value| == PROP_VALUE_MAX
    && match s.writer
       case Idle => forall i | 0 <= i < PROP_VALUE_MAX :: s.value[i] == Left(first, s.history, i)
       case Busy(text, copied) =>
         forall i | 0 <= i < PROP_VALUE_MAX ::
           s.value[i] == if i < |text| && i in copied then text[i] else Left(first, s.history, i)
  }

  predicate LocalLeft(first: seq<byte>, history: seq<Text>, began: nat, local: map<nat, byte>)
    requires |first| == PROP_VALUE_MAX
  {
    began < |history| && forall i | i in local && i < PROP_VALUE_MAX :: local[i] == Left(first, history[..began + 1], i)
  }

  /** A reader that no write has overtaken holds what is left in the area at each byte it copied. */
  predicate ReaderLeft(first: seq<byte>, s: State, rd: Reader)
    requires |first| == PROP_VALUE_MAX
  {
    match rd
    case Step1 | Step2(_, _) => true
    case Step3(_, began, local) => s.begun == began ==> LocalLeft(first, s.history, began, local)
    case Done(serial, began, ended, local) =>
      && (ended == began ==> LocalLeft(first, s.history, began, local))
      && forall i: nat | i <= SerialValueLen(serial) :: i in local
  }

  predicate LeftInv(first: seq<byte>, s: State)
    requires |first| == PROP_VALUE_MAX
  {
    ValueLeft(first, s) && forall r | 0 <= r < |s.readers| :: ReaderLeft(first, s, s.readers[r])
  }

  lemma LeftOne(first: seq<byte>, history: seq<Text>, text: Text, i: nat)
    requires i < |first|
    ensures Left(first, history + [text], i) == if i < |text| then text[i] else Left(first, history, i)
  {
    assert (history + [text])[..|history|] == history;
  }

  lemma WriterKeepsValueLeft(first: seq<byte>, s: State, step: Step)
    requires |first| == PROP_VALUE_MAX && Inv(s) && ValueLeft(first, s) && Enabled(s, step)
    requires step.BeginWrite? || step.CopyIn? || step.EndWrite?
    ensures ValueLeft(first, Apply(s, step))
  {
    hide Left, Inv;
    if step.EndWrite? {
      forall i | 0 <= i < PROP_VALUE_MAX { LeftOne(first, s.history, s.writer.text, i); }
    }
  }

  lemma WriterKeepsReaderLeft(first: seq<byte>, s: State, step: Step, rd: Reader)
    requires |first| == PROP_VALUE_MAX && Inv(s) && ReaderInv(s, rd) && ReaderLeft(first, s, rd) && Enabled(s, step)
    requires step.BeginWrite? || step.CopyIn? || step.EndWrite?
    ensures ReaderLeft(first, Apply(s, step), rd)
  {
    hide Left, CleanSerial, Agrees, Returns;
    var t := Apply(s, step);
    assert rd.Step3? || rd.Done? ==> rd.began < |s.history| && t.history[..rd.began + 1] == s.history[..rd.began + 1];
  }

  lemma ReaderStepKeepsLeft(first: seq<byte>, s: State, step: Step)
    requires |first| == PROP_VALUE_MAX && Inv(s) && LeftInv(first, s) && Enabled(s, step)
    requires !(step.BeginWrite? || step.CopyIn? || step.EndWrite?)
    ensures ReaderLeft(first, Apply(s, step), Apply(s, step).readers[step.r])
  {
    hide Left, CleanSerial, Agrees, Returns, SerialDirty, Inv;
    var rd := s.readers[step.r];
    if step.CopyOut? && s.begun == rd.began {
      IdleWhenCurrent(s, step.r);
      assert s.history[..rd.began + 1] == s.history;
    }
    if step.TestDirty? && s.begun == rd.began && !SerialDirty(rd.serial) { IdleWhenCurrent(s, step.r); }
  }

  lemma IdleWhenCurrent(s: State, r: nat)
    requires Inv(s) && r < |s.readers|
    requires s.readers[r].Step3? || (s.readers[r].Step2? && !SerialDirty(s.readers[r].serial))
    requires s.begun == s.readers[r].began
    ensures s.writer.Idle? && |s.history| == s.readers[r].began + 1
  {
  }

  lemma StepKeepsLeft(first: seq<byte>, s: State, step: Step)
    requires |first| == PROP_VALUE_MAX && Inv(s) && LeftInv(first, s)
    ensures LeftInv(first, Apply(s, step))
  {
    hide ReaderLeft, ReaderInv, WriterInv, Left;
    var t := Apply(s, step);
    if Enabled(s, step) {
      if step.BeginWrite? || step.CopyIn? || step.EndWrite? {
        WriterKeepsValueLeft(first, s, step);
        forall r | 0 <= r < |t.readers| ensures ReaderLeft(first, t, t.readers[r]) {
          WriterKeepsReaderLeft(first, s, step, s.readers[r]);
        }
      } else {
        ReaderStepKeepsLeft(first, s, step);
        forall r | 0 <= r < |t.readers| ensures ReaderLeft(first, t, t.readers[r]) {
          if r != step.r { LeftFrame(first, s, t, s.readers[r]); }
        }
      }
    }
  }

  lemma LeftFrame(first: seq<byte>, s: State, t: State, rd: Reader)
    requires |first| == PROP_VALUE_MAX && ReaderLeft(first, s, rd) && s.history == t.history && s.begun == t.begun
    ensures ReaderLeft(first, t, rd)
  {
  }

  lemma {:induction false} RunsKeepLeft(s: State, steps: seq<Step>)
    requires Init(s)
    ensures LeftInv(s.value, Exec(s, steps))
  {
    hide Left, Apply;
    if steps == [] {
      forall i | 0 <= i < PROP_VALUE_MAX { InitLeft(s, i); }
    } else {
      RunsKeepLeft(s, steps[..|steps| - 1]);
      RunsKeepInv(s, steps[..|steps| - 1]);
      StepKeepsLeft(s.value, Exec(s, steps[..|steps| - 1]), steps[|steps| - 1]);
    }
  }

  lemma InitLeft(s: State, i: nat)
    requires Init(s) && i < PROP_VALUE_MAX
    ensures Left(s.value, s.history, i) == s.value[i]
  {
    assert s.history == [] + [s.history[0]];
    LeftOne(s.value, [], s.history[0], i);
    assert i < |s.history[0]| ==> s.value[..|s.history[0]|][i] == s.value[i];
  }

  /**
   What a returning reader holds in the byte behind the value, over every interleaving with
   fewer than 2^23 writes: the byte that the last longer value had there, or else the one the
   area started with. It is a terminator if and only if that byte is NUL.
   */
  lemma ExtraByteIsLeft(s: State, steps: seq<Step>, r: nat)
    requires Init(s)
    requires r < |Exec(s, steps).readers| && Exec(s, steps).readers[r].Done?
    requires Exec(s, steps).readers[r].ended - Exec(s, steps).readers[r].began < COUNTER / 2
    ensures var t := Exec(s, steps); var rd := t.readers[r]; var len := SerialValueLen(rd.serial);
            && rd.began < |t.history| && len == |t.history[rd.began]| < PROP_VALUE_MAX && len in rd.local
            && rd.local[len] == Left(s.value, t.history[..rd.began + 1], len)
  {
    hide Exec, Left;
    ReadersReturnCompleteValues(s, steps, r);
    RunsKeepLeft(s, steps);
  }

  /**
   The reader copies one byte more than the writer does, and that byte can belong to an older
   value: after [a, a] is replaced by the one-byte value [b], a reader returns b and then a.
   */
  lemma ExtraByteIsStale(a: byte, b: byte)
    ensures Init(TornStart(a))
    ensures var t := Exec(TornStart(a),
                          [BeginWrite([b]), CopyIn(0), EndWrite]
                          + ([ReadSerial(0), TestDirty(0), CopyOut(0, 1)] + [CopyOut(0, 0), Compare(0)]));
            t.history == [[a, a], [b]] && t.readers == [Done(COUNTER + 2, 1, 1, map[0 := b, 1 := a])]
  {
    OneByteWritten(a, b);
    assert TornStart(a).value[..2] == [a, a];
    var s := State(COUNTER + 2, TornStart(a).value[0 := b], Idle, [Step1], [[a, a], [b]], 1, 0);
    var start, last := [ReadSerial(0), TestDirty(0), CopyOut(0, 1)], [CopyOut(0, 0), Compare(0)];
    ExecAppend(TornStart(a), [BeginWrite([b]), CopyIn(0), EndWrite], start + last);
    ExecAppend(s, start, last);
    StaleByteCopied(s, a);
    StaleByteReturned(s.(readers := [Step3(COUNTER + 2, 1, map[1 := a])]), a, b);
  }

  lemma StaleByteCopied(s: State, a: byte)
    requires s.serial == COUNTER + 2 && s.begun == 1 && s.readers == [Step1] && 1 < |s.value| && s.value[1] == a
    ensures Exec(s, [ReadSerial(0), TestDirty(0), CopyOut(0, 1)]) == s.(readers := [Step3(COUNTER + 2, 1, map[1 := a])])
  {
    hide Apply, Exec;
    ThreeSteps(s, ReadSerial(0), TestDirty(0), CopyOut(0, 1));
    StartRuns(s);
    var none: map<nat, byte> := map[];
    CopyOutRuns(s.(readers := [Step3(COUNTER + 2, 1, none)]), COUNTER + 2, 1, none, 1);
    assert none[1 := a] == map[1 := a];
  }

  lemma StaleByteReturned(s: State, a: byte, b: byte)
    requires s.serial == COUNTER + 2 && s.begun == 1 && 1 < |s.value| && s.value[0] == b
    requires s.readers == [Step3(COUNTER + 2, 1, map[1 := a])]
    ensures Exec(s, [CopyOut(0, 0), Compare(0)]) == s.(readers := [Done(COUNTER + 2, 1, 1, map[0 := b, 1 := a])])
  {
    hide Apply;
    assert [CopyOut(0, 0), Compare(0)][..1] == [CopyOut(0, 0)] && [CopyOut(0, 0)][..0] == [];
    assert Exec(s, [CopyOut(0, 0)]) == Apply(s, CopyOut(0, 0));
    var full: map<nat, byte> := map[0 := b, 1 := a];
    var local: map<nat, byte> := map[1 := a];
    assert local[0 := b] == full && SerialValueLen(COUNTER + 2) == 1;
    CopyOutRuns(s, COUNTER + 2, 1, local, 0);
    CompareRuns(s.(readers := [Step3(COUNTER + 2, 1, full)]), COUNTER + 2, 1, full);
  }
}
