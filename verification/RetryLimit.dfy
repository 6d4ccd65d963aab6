/**
 When the retry limit works. Every message that set_retry_bootloader_message stores is made
 from the one before it, so all that a boot can find is one of a fixed list of messages.
 */
module RetryLimit {
  import opened Common
  import opened BootMessage
  import opened Options
  import opened RecoveryMain
  import opened Recovery
  import opened RetryBound

  // ---- The messages of an update ----

  /** The message that follows the option list `o`, as the next boot reads it. */
  function Successor(c: Config, o: seq<string>): seq<string> {
    Persisted(RetryOptions([c.argv0] + o, CountOf(o) + 1))
  }

  /** What a boot finds after `i` messages were stored, each made from the one before it. */
  function Stored(c: Config, start: seq<string>, i: nat): seq<string> {
    if i == 0 then start else Successor(c, Stored(c, start, i - 1))
  }

  predicate Retryable(o: seq<string>) { Installable(o) && CountOf(o) < RETRY_LIMIT }

  /** An update that looks fresh or may be retried: its boot stores the next message. */
  predicate Passable(o: seq<string>) { HasUpdate(o) && (CountOf(o) == 0 || Retryable(o)) }

  predicate Reaches(c: Config, start: seq<string>, i: nat) {
    forall k | 0 <= k < i :: Passable(Stored(c, start, k))
  }

  /** How many of the first `i` messages may be retried. */
  function Retries(c: Config, start: seq<string>, i: nat): (n: nat)
    ensures n <= i
  {
    if i == 0 then 0 else Retries(c, start, i - 1) + if Retryable(Stored(c, start, i - 1)) then 1 else 0
  }

  /** At most four of the messages that can follow `start` may be retried. */
  ghost predicate Limited(c: Config, start: seq<string>) {
    forall i: nat :: Reaches(c, start, i) ==> Retries(c, start, i) <= RETRY_LIMIT
  }

  /** The retry reboots that no failure accounts for. */
  function Spent(t: Tally): int { t.retries - t.failures }

  /** The crashes, and two for each failure. */
  function Met(t: Tally): int { t.crashes + 2 * t.failures }

  /** No run without a lapse has more than four retry reboots, not counting one for each failure. */
  ghost predicate LimitHolds(c: Config, s: State) {
    forall events: seq<Event> ::
      var t := Run(c, s, events).tally; t.lapses == 0 ==> Spent(t) <= RETRY_LIMIT
  }

  // ---- Something is always read back ----

  lemma FirstLineSurvives(o: seq<string>)
    requires o != [] && o[0] != "" && o[0][0] != '\0' && o[0][0] != '\n'
    ensures Persisted(o) != []
  {
    hide Split, Filled, Field;
    var text := MessageText(o);
    var s := CString(text);
    assert text[9] == o[0][0] && forall i | 0 <= i < 9 :: text[i] == HEADER[i];
    FieldRoundTrip(text);
    var seen := if |s| < RECOVERY_SIZE then s else s[..RECOVERY_SIZE - 1];
    assert 9 < |s| && seen == HEADER + seen[9..];
    HeaderSplit(seen[9..]);
    FirstPieceIsFilled(seen[9..]);
    assert (["recovery"] + Split(seen[9..], '\n'))[1..] == Split(seen[9..], '\n');
  }

  lemma FirstPieceIsFilled(text: string)
    requires text != "" && text[0] != '\0' && text[0] != '\n'
    ensures Filled(Split(text, '\n')) != []
  {
    var k := FindFrom(text, '\n', 0);
    assert 0 < k && Split(text, '\n')[0] == text[..k];
  }

  lemma FilledAreLines(tokens: seq<string>, text: string, i: nat)
    requires i < |Filled(tokens)| && forall t | t in tokens :: t in Split(text, '\n')
    ensures var o := Filled(tokens)[i]; o != "" && o[0] != '\0' && o[0] != '\n'
  {
    hide Split, Filled;
    SplitHasNone(text, '\n');
    assert Filled(tokens)[i] in tokens && '\n' !in Filled(tokens)[i];
  }

  /** The options of a boot are lines that begin with a character. */
  lemma NextSurvives(c: Config, s: State)
    requires Next(c, s) != []
    ensures Persisted(Next(c, s)) != []
  {
    hide Split, Filled, CString, Persisted;
    NextOptions(c, s);
    if OptionsOf(s.bcb) != [] {
      var text := CString(s.bcb.recovery[RECOVERY_SIZE - 1 := '\0']);
      FilledAreLines(Split(text, '\n')[1..], text, 0);
    } else {
      var text := CommandFile(c, s).value;
      FilledAreLines(Split(text, '\n'), text, 0);
    }
    FirstLineSurvives(Next(c, s));
  }

  lemma SuccessorIsRead(c: Config, o: seq<string>)
    requires PlainArgv(c)
    ensures Successor(c, o) != []
  {
    hide Persisted;
    PlainArgvHasNoCount(c.argv0);
    var args := RetryOptions([c.argv0] + o, CountOf(o) + 1);
    assert args[0] == c.argv0;
    FirstLineSurvives(args);
  }

  lemma PersistedIsStable(o: seq<string>)
    ensures Persisted(Persisted(o)) == Persisted(o)
  {
    CutListsAreStable(Zeroed(), Zeroed(), o);
  }

  lemma SuccessorIsStable(c: Config, o: seq<string>)
    ensures Persisted(Successor(c, o)) == Successor(c, o)
  {
    hide Persisted, RetryOptions, CountOf;
    PersistedIsStable(RetryOptions([c.argv0] + o, CountOf(o) + 1));
  }

  lemma IdlePersists()
    ensures Persisted([]) == [] && Persisted(InProgressOptions()) == InProgressOptions()
  {
    NothingPersists(Zeroed());
    InProgressPersists(Zeroed());
  }

  // ---- Where a run stands ----

  /**
   `o` is message `i`, and as many retries and crashes have happened as it takes to get there.
   A failure is set off against a retry and counted as two crashes, since it can let a retry
   go by without a new message as well as a boot end without a crash.
   */
  predicate At(c: Config, start: seq<string>, o: seq<string>, retries: int, crashes: int, i: nat) {
    && o == Stored(c, start, i) && Reaches(c, start, i)
    && retries <= Retries(c, start, i) && i <= retries + crashes
  }

  ghost predicate Follows(c: Config, start: seq<string>, o: seq<string>, retries: int, crashes: int) {
    exists i: nat :: At(c, start, o, retries, crashes, i)
  }

  /** The list that starts it all may come from the command file, and be cut when it is written back. */
  ghost predicate OnPath(c: Config, base: seq<string>, o: seq<string>, retries: int, crashes: int) {
    Follows(c, base, o, retries, crashes) || Follows(c, Persisted(base), o, retries, crashes)
  }

  ghost predicate Paid(c: Config, base: seq<string>, retries: int, crashes: int) {
    exists o :: OnPath(c, base, o, retries, crashes)
  }

  /** A running command line. */
  ghost predicate Live(c: Config, base: seq<string>, o: seq<string>, retries: int, crashes: int) {
    OnPath(c, base, o, retries, crashes) || (!HasUpdate(o) && Paid(c, base, retries, crashes))
  }

  predicate Idle(o: seq<string>) { o == [] || o == InProgressOptions() }

  /** The options that the next boot would find. */
  ghost predicate Found(c: Config, base: seq<string>, o: seq<string>, retries: int, crashes: int) {
    OnPath(c, base, o, retries, crashes) || (Idle(o) && Paid(c, base, retries, crashes))
  }

  /** start_recovery has finished once, and the command file is gone. */
  ghost predicate AfterFinish(c: Config, base: seq<string>, s: State, o: seq<string>) {
    && Live(c, base, o, Spent(s.tally), Met(s.tally)) && Found(c, base, Next(c, s), Spent(s.tally), Met(s.tally))
    && CommandFile(c, s).None?
  }

  ghost predicate PhaseOnPath(c: Config, base: seq<string>, s: State) {
    var next, retries, crashes := Next(c, s), Spent(s.tally), Met(s.tally);
    match s.phase
    case Off => Found(c, base, next, retries, crashes)
    case Collected(o) => o == next && Found(c, base, next, retries, crashes)
    case Started(o) => Live(c, base, o, retries, crashes) && Found(c, base, next, retries, crashes + 1)
    case Armed(o) =>
      && OnPath(c, base, o, retries, crashes) && HasUpdate(o) && CountOf(o) == 0
      && Found(c, base, next, retries, crashes + 1)
    case Installing(o) =>
      && OnPath(c, base, o, retries, crashes) && Installable(o) && Found(c, base, next, retries, crashes + 1)
    case Retrying(o) =>
      && OnPath(c, base, o, retries, crashes) && Retryable(o) && Found(c, base, next, retries, crashes + 1)
    case Restarting => Found(c, base, next, retries + 1, crashes)
    case Clearing(o, _) => Live(c, base, o, retries, crashes) && Found(c, base, next, retries, crashes + 1)
    case Unlinking(o, _) =>
      Live(c, base, o, retries, crashes) && (OptionsOf(s.bcb) == [] || Found(c, base, next, retries, crashes))
    case Menu(o, _) => AfterFinish(c, base, s, o)
    case MenuInstall(o) => AfterFinish(c, base, s, o)
    case Returned(o, _) => AfterFinish(c, base, s, o)
  }

  // ---- Moving along the path ----

  lemma FollowsLater(c: Config, start: seq<string>, o: seq<string>, r: int, n: int, r': int, n': int)
    requires Follows(c, start, o, r, n) && r' <= r && r + n <= r' + n'
    ensures Follows(c, start, o, r', n')
  {
    hide Stored, Reaches;
    var i: nat :| At(c, start, o, r, n, i);
    assert At(c, start, o, r', n', i);
  }

  lemma OnPathLater(c: Config, base: seq<string>, o: seq<string>, r: int, n: int, r': int, n': int)
    requires OnPath(c, base, o, r, n) && r' <= r && r + n <= r' + n'
    ensures OnPath(c, base, o, r', n') && Paid(c, base, r', n')
  {
    hide Follows;
    if Follows(c, base, o, r, n) {
      FollowsLater(c, base, o, r, n, r', n');
    } else {
      FollowsLater(c, Persisted(base), o, r, n, r', n');
    }
  }

  lemma PaidLater(c: Config, base: seq<string>, r: int, n: int, r': int, n': int)
    requires Paid(c, base, r, n) && r' <= r && r + n <= r' + n'
    ensures Paid(c, base, r', n')
  {
    hide OnPath;
    var o :| OnPath(c, base, o, r, n);
    OnPathLater(c, base, o, r, n, r', n');
  }

  /** What has been found stays paid for, whatever happens next. */
  lemma FoundLater(c: Config, base: seq<string>, o: seq<string>, r: int, n: int, r': int, n': int)
    requires Found(c, base, o, r, n) && r' <= r && r + n <= r' + n'
    ensures Found(c, base, o, r', n')
  {
    hide OnPath;
    if OnPath(c, base, o, r, n) {
      OnPathLater(c, base, o, r, n, r', n');
    } else {
      PaidLater(c, base, r, n, r', n');
    }
  }

  lemma LiveLater(c: Config, base: seq<string>, o: seq<string>, r: int, n: int, r': int, n': int)
    requires Live(c, base, o, r, n) && r' <= r && r + n <= r' + n'
    ensures Live(c, base, o, r', n')
  {
    hide OnPath;
    if OnPath(c, base, o, r, n) {
      OnPathLater(c, base, o, r, n, r', n');
    } else {
      PaidLater(c, base, r, n, r', n');
    }
  }

  lemma LivePays(c: Config, base: seq<string>, o: seq<string>, r: int, n: int)
    requires Live(c, base, o, r, n) || Found(c, base, o, r, n)
    ensures Paid(c, base, r, n) && Paid(c, base, r, n + 1)
  {
    hide OnPath;
    if OnPath(c, base, o, r, n) { OnPathLater(c, base, o, r, n, r, n); }
    PaidLater(c, base, r, n, r, n + 1);
  }

  lemma FollowsOn(c: Config, start: seq<string>, o: seq<string>, r: int, n: int, retried: bool)
    requires Follows(c, start, o, r, n) && Passable(o) && (retried ==> Retryable(o))
    ensures if retried then Follows(c, start, Successor(c, o), r + 1, n)
            else Follows(c, start, Successor(c, o), r, n + 1)
  {
    hide Passable, Retryable, Successor;
    var i: nat :| At(c, start, o, r, n, i);
    if retried {
      assert At(c, start, Successor(c, o), r + 1, n, i + 1);
    } else {
      assert At(c, start, Successor(c, o), r, n + 1, i + 1);
    }
  }

  /** Storing the next message costs a retry reboot, or else it takes a crash to get to see it. */
  lemma OnPathNext(c: Config, base: seq<string>, o: seq<string>, r: int, n: int, retried: bool)
    requires OnPath(c, base, o, r, n) && Passable(o) && (retried ==> Retryable(o))
    ensures if retried then OnPath(c, base, Successor(c, o), r + 1, n) else OnPath(c, base, Successor(c, o), r, n + 1)
  {
    hide Follows, Passable, Retryable, Successor;
    if Follows(c, base, o, r, n) {
      FollowsOn(c, base, o, r, n, retried);
    } else {
      FollowsOn(c, Persisted(base), o, r, n, retried);
    }
  }

  /** Writing a list back changes nothing, except that the first list may be cut. */
  lemma FollowsBack(c: Config, start: seq<string>, o: seq<string>, r: int, n: int)
    requires Follows(c, start, o, r, n) && Persisted(o) != o
    ensures o == start && Follows(c, Persisted(start), Persisted(o), r, n)
  {
    hide Persisted, Successor, Passable, Retryable;
    var i: nat :| At(c, start, o, r, n, i);
    if 0 < i { SuccessorIsStable(c, Stored(c, start, i - 1)); }
    assert At(c, Persisted(start), Persisted(o), r, n, 0);
  }

  lemma OnPathBack(c: Config, base: seq<string>, o: seq<string>, r: int, n: int)
    requires OnPath(c, base, o, r, n)
    ensures OnPath(c, base, Persisted(o), r, n)
  {
    hide Persisted, Follows;
    if Persisted(o) != o {
      PersistedIsStable(base);
      if Follows(c, base, o, r, n) {
        FollowsBack(c, base, o, r, n);
      } else {
        FollowsBack(c, Persisted(base), o, r, n);
      }
    }
  }

  // ---- Every step stays on the path ----

  lemma IdleInstallsNothing(o: seq<string>)
    requires Idle(o)
    ensures !HasUpdate(o) && Persisted(o) == o
  {
    hide CommandOf, Persisted;
    NothingToInstall();
    IdlePersists();
    ReasonTokenMeaning(IN_PROGRESS);
  }

  /** What the boot after a write of `o` finds, when `o` is what it would have found before. */
  lemma NextAfterWriteBack(c: Config, s: State, t: State)
    requires t.bcb == Update(s.bcb, Next(c, s)) && t.command == s.command
    ensures Next(c, t) == Persisted(Next(c, s))
  {
    hide OptionsOf, Update, Lines, Persisted, NextArgs;
    StoredArePersisted(s.bcb, Next(c, s));
    NextOptions(c, s);
    NextOptions(c, t);
    IdlePersists();
    if Next(c, s) != [] { NextSurvives(c, s); }
  }

  lemma FoundBack(c: Config, base: seq<string>, o: seq<string>, r: int, n: int)
    requires Found(c, base, o, r, n)
    ensures Found(c, base, Persisted(o), r, n + 1)
  {
    hide OnPath, Idle, Persisted;
    if OnPath(c, base, o, r, n) {
      OnPathBack(c, base, o, r, n);
    } else {
      IdleInstallsNothing(o);
    }
    FoundLater(c, base, Persisted(o), r, n, r, n + 1);
  }

  lemma FoundIsLive(c: Config, base: seq<string>, o: seq<string>, r: int, n: int)
    requires Found(c, base, o, r, n)
    ensures Live(c, base, o, r, n) && Paid(c, base, r, n)
  {
    hide OnPath, Idle;
    LivePays(c, base, o, r, n);
    if !OnPath(c, base, o, r, n) { IdleInstallsNothing(o); }
  }

  lemma WriteBackStaysOnPath(c: Config, base: seq<string>, s: State)
    requires PhaseOnPath(c, base, s) && s.phase.Collected?
    ensures PhaseOnPath(c, base, BootStep(c, s, WriteBack))
  {
    hide CommandOf, HasUpdate, Update, NextArgs, Found, OnPath, Paid, WithBootMode, Persisted, Next;
    var o, t := s.phase.options, BootStep(c, s, WriteBack);
    NextAfterWriteBack(c, s, t);
    FoundBack(c, base, o, Spent(s.tally), Met(s.tally));
    FoundIsLive(c, base, o, Spent(s.tally), Met(s.tally));
    StartedOptions(c, o, s.bcb);
  }

  lemma CollectedIsFound(c: Config, base: seq<string>, s: State)
    requires PhaseOnPath(c, base, s) && s.phase.Collected?
    ensures s.phase.options == Next(c, s) && Found(c, base, Next(c, s), Spent(s.tally), Met(s.tally))
  {
    hide Found, Next;
  }

  lemma StartedIsOnPath(c: Config, base: seq<string>, s: State)
    requires s.phase.Started? && Live(c, base, s.phase.options, Spent(s.tally), Met(s.tally))
    requires Found(c, base, Next(c, s), Spent(s.tally), Met(s.tally) + 1)
    ensures PhaseOnPath(c, base, s)
  {
    hide Found, Live, Next;
  }

  lemma WriteBackFailsStaysOnPath(c: Config, base: seq<string>, s: State)
    requires PhaseOnPath(c, base, s) && s.phase.Collected?
    ensures PhaseOnPath(c, base, BootStep(c, s, WriteBackFails))
  {
    hide PhaseOnPath, NextArgs, Found, Live, WithBootMode, Next;
    var o, t, r, n := s.phase.options, BootStep(c, s, WriteBackFails), Spent(s.tally), Met(s.tally);
    CollectedIsFound(c, base, s);
    SameNext(c, s, t);
    FoundLater(c, base, o, r, n, r - 1, n + 3);
    FoundLater(c, base, o, r, n, r - 1, n + 2);
    FoundIsLive(c, base, o, r - 1, n + 2);
    StartedOptions(c, o, s.bcb);
    ModeIsLive(c, base, o, t.phase.options, r - 1, n + 2);
    StartedIsOnPath(c, base, t);
  }

  lemma ModeIsLive(c: Config, base: seq<string>, o: seq<string>, args: seq<string>, r: int, n: int)
    requires Live(c, base, o, r, n) && (args == o || !HasUpdate(args))
    ensures Live(c, base, args, r, n)
  {
    hide OnPath;
    LivePays(c, base, o, r, n);
  }

  /** set_retry_bootloader_message was called with the count that follows. */
  lemma NextAfterStoring(c: Config, o: seq<string>, t: State, b: Block)
    requires PlainArgv(c) && t.bcb == Update(b, RetryOptions([c.argv0] + o, CountOf(o) + 1))
    ensures Next(c, t) == Successor(c, o)
  {
    hide OptionsOf, Update, Lines, Persisted, NextArgs, RetryOptions, CountOf;
    StoredArePersisted(b, RetryOptions([c.argv0] + o, CountOf(o) + 1));
    SuccessorIsRead(c, o);
    NextOptions(c, t);
  }

  lemma StoreFirstStaysOnPath(c: Config, base: seq<string>, s: State)
    requires PlainArgv(c) && PhaseOnPath(c, base, s) && s.phase.Started?
    requires HasUpdate(s.phase.options) && CountOf(s.phase.options) == 0
    ensures PhaseOnPath(c, base, StartStep(c, s, StoreFirstCount))
  {
    hide CommandOf, Update, NextArgs, OnPath, Paid, Next, RetryOptions, Successor, Mountable;
    var o, t := s.phase.options, StartStep(c, s, StoreFirstCount);
    NextAfterStoring(c, o, t, s.bcb);
    OnPathNext(c, base, o, Spent(s.tally), Met(s.tally), false);
  }

  lemma SameNext(c: Config, s: State, t: State)
    requires s.bcb == t.bcb && s.command == t.command
    ensures Next(c, s) == Next(c, t)
  {
    hide Gathered;
  }

  lemma UpdateIsOnPath(c: Config, base: seq<string>, o: seq<string>, r: int, n: int)
    requires Live(c, base, o, r, n) && HasUpdate(o)
    ensures OnPath(c, base, o, r, n) && OnPath(c, base, o, r - 1, n + 2)
  {
    hide OnPath;
    OnPathLater(c, base, o, r, n, r - 1, n + 2);
  }

  lemma StartStaysOnPath(c: Config, base: seq<string>, s: State, e: Event)
    requires PlainArgv(c) && PhaseOnPath(c, base, s) && s.phase.Started?
    ensures PhaseOnPath(c, base, StartStep(c, s, e))
  {
    hide CommandOf, Update, NextArgs, OnPath, Paid, Found, Next, RetryOptions, Mountable, Warned, PlainArgv;
    var o, r, n := s.phase.options, Spent(s.tally), Met(s.tally);
    if e.StoreFirstCount? && HasUpdate(o) && CountOf(o) == 0 {
      StoreFirstStaysOnPath(c, base, s);
    } else {
      SameNext(c, s, StartStep(c, s, e));
      if HasUpdate(o) { UpdateIsOnPath(c, base, o, r, n); }
      FoundLater(c, base, Next(c, s), r, n + 1, r - 1, n + 3);
    }
  }

  lemma StoreNextStaysOnPath(c: Config, base: seq<string>, s: State)
    requires PlainArgv(c) && PhaseOnPath(c, base, s) && s.phase.Retrying?
    ensures PhaseOnPath(c, base, InstallStep(c, s, StoreNextCount))
  {
    hide CommandOf, Update, NextArgs, OnPath, Paid, Next, RetryOptions, Successor, Mountable;
    var o, t := s.phase.options, InstallStep(c, s, StoreNextCount);
    NextAfterStoring(c, o, t, s.bcb);
    OnPathNext(c, base, o, Spent(s.tally), Met(s.tally), true);
  }

  lemma InstallStaysOnPath(c: Config, base: seq<string>, s: State, e: Event)
    requires PlainArgv(c) && PhaseOnPath(c, base, s)
    requires s.phase.Armed? || s.phase.Installing? || s.phase.Retrying? || s.phase.Restarting?
    ensures PhaseOnPath(c, base, InstallStep(c, s, e))
  {
    hide CommandOf, Update, NextArgs, OnPath, Paid, Next, RetryOptions, Mountable, Warned, PlainArgv;
    if s.phase.Retrying? && e.StoreNextCount? {
      StoreNextStaysOnPath(c, base, s);
    } else {
      SameNext(c, s, InstallStep(c, s, e));
      if s.phase.Retrying? {
        var r, n := Spent(s.tally), Met(s.tally);
        FoundLater(c, base, Next(c, s), r, n + 1, r, n + 2);
      }
    }
  }

  lemma IdleIsFound(c: Config, base: seq<string>, o: seq<string>, r: int, n: int, next: seq<string>)
    requires Live(c, base, o, r, n) && Idle(next)
    ensures Found(c, base, next, r, n)
  {
    hide OnPath, Idle;
    LivePays(c, base, o, r, n);
  }

  lemma ClearingStaysOnPath(c: Config, base: seq<string>, s: State, e: Event)
    requires PhaseOnPath(c, base, s) && s.phase.Clearing?
    ensures PhaseOnPath(c, base, FinishStep(c, s, e))
  {
    hide CommandOf, NextArgs, Live, Found, OptionsOf, Lines, Zeroed, Next;
    var r, n := Spent(s.tally), Met(s.tally);
    ZeroedOptions();
    if e.ClearFails? {
      SameNext(c, s, FinishStep(c, s, e));
      FoundLater(c, base, Next(c, s), r, n + 1, r - 1, n + 2);
      LiveLater(c, base, s.phase.options, r, n, r - 1, n + 2);
    }
  }

  lemma UnlinkingStaysOnPath(c: Config, base: seq<string>, s: State)
    requires PhaseOnPath(c, base, s) && s.phase.Unlinking?
    ensures PhaseOnPath(c, base, FinishStep(c, s, UnlinkCommand))
  {
    hide CommandOf, NextArgs, Live, Found, OptionsOf, Lines;
    var t := FinishStep(c, s, UnlinkCommand);
    NextOptions(c, s);
    NextOptions(c, t);
    if OptionsOf(s.bcb) == [] { IdleIsFound(c, base, s.phase.options, Spent(s.tally), Met(s.tally), []); }
  }

  lemma FinishStaysOnPath(c: Config, base: seq<string>, s: State, e: Event)
    requires PhaseOnPath(c, base, s) && (s.phase.Clearing? || s.phase.Unlinking?)
    requires FinishStep(c, s, e).tally.lapses == s.tally.lapses
    ensures PhaseOnPath(c, base, FinishStep(c, s, e))
  {
    hide PhaseOnPath, Zeroed;
    if s.phase.Clearing? {
      ClearingStaysOnPath(c, base, s, e);
    } else if e.UnlinkCommand? {
      UnlinkingStaysOnPath(c, base, s);
    }
  }

  /** In the menu and after it, the next boot finds what it would have found, or nothing to install. */
  lemma MenuStaysOnPath(c: Config, base: seq<string>, s: State, e: Event)
    requires PhaseOnPath(c, base, s) && (s.phase.Menu? || s.phase.MenuInstall? || s.phase.Returned?)
    ensures PhaseOnPath(c, base, MenuStep(c, s, e))
  {
    hide CommandOf, HasUpdate, Update, NextArgs, Live, Found, OptionsOf, RescueMessage, Next;
    var t, r, n := MenuStep(c, s, e), Spent(s.tally), Met(s.tally);
    var o, next := s.phase.options, Next(c, s);
    if s.bcb == t.bcb {
      SameNext(c, s, t);
    } else {
      NewMessageIsIdle(c, s, e);
      IdleIsFound(c, base, o, r, n, Next(c, t));
    }
    FoundLater(c, base, Next(c, t), r, n, r, n + 1);
    FoundLater(c, base, Next(c, t), r, n, r - 1, n + 2);
    LiveLater(c, base, o, r, n, r - 1, n + 2);
  }

  lemma NewMessageIsIdle(c: Config, s: State, e: Event)
    requires (s.phase.Menu? || s.phase.MenuInstall? || s.phase.Returned?) && CommandFile(c, s).None?
    requires MenuStep(c, s, e).bcb != s.bcb
    ensures Idle(Next(c, MenuStep(c, s, e)))
  {
    hide HasUpdate, Update, NextArgs, OptionsOf, RescueMessage, Lines;
    RescueHasNoOptions();
    InProgressPersists(s.bcb);
    NextOptions(c, MenuStep(c, s, e));
  }

  lemma CrashStaysOnPath(c: Config, base: seq<string>, s: State)
    requires PhaseOnPath(c, base, s) && !s.phase.Off? && !s.phase.Unlinking?
    ensures PhaseOnPath(c, base, Crashed(s))
  {
    hide CommandOf, Update, NextArgs, Live, OnPath, Found, Next;
    var next, r, n := Next(c, s), Spent(s.tally), Met(s.tally);
    SameNext(c, s, Crashed(s));
    match s.phase
    case Collected(o) => FoundLater(c, base, next, r, n, r, n + 1);
    case Restarting => FoundLater(c, base, next, r + 1, n, r, n + 1);
    case Menu(_, _) | MenuInstall(_) | Returned(_, _) => FoundLater(c, base, next, r, n, r, n + 1);
    case _ =>
  }

  lemma StepStaysOnPath(c: Config, base: seq<string>, s: State, e: Event)
    requires PlainArgv(c) && PhaseOnPath(c, base, s) && Step(c, s, e).tally.lapses == s.tally.lapses
    ensures PhaseOnPath(c, base, Step(c, s, e))
  {
    hide CommandOf, Update, NextArgs, Live, Found, Next, PlainArgv;
    if e.Crash? {
      if !s.phase.Off? { CrashStaysOnPath(c, base, s); }
    } else {
      match s.phase
      case Off | Collected(_) =>
        if s.phase.Collected? && e.WriteBack? {
          WriteBackStaysOnPath(c, base, s);
        } else if s.phase.Collected? && e.WriteBackFails? {
          WriteBackFailsStaysOnPath(c, base, s);
        } else {
          BootFinds(c, s, e);
          SameNext(c, s, BootStep(c, s, e));
        }
      case Started(_) => StartStaysOnPath(c, base, s, e);
      case Armed(_) | Installing(_) | Retrying(_) | Restarting => InstallStaysOnPath(c, base, s, e);
      case Clearing(_, _) | Unlinking(_, _) => FinishStaysOnPath(c, base, s, e);
      case Menu(_, _) | MenuInstall(_) | Returned(_, _) => MenuStaysOnPath(c, base, s, e);
    }
  }

  lemma BootFinds(c: Config, s: State, e: Event)
    requires s.phase.Off? || (s.phase.Collected? && !e.WriteBack? && !e.WriteBackFails?)
    ensures BootStep(c, s, e) == s || BootStep(c, s, e) == s.(phase := Collected(Next(c, s)))
  {
    hide NextArgs;
  }

  /** The device is off and nothing has happened yet, whatever it will boot into. */
  predicate AtRest(s: State) { s.phase.Off? && s.tally == NOTHING_YET }

  lemma {:induction false} RunsStayOnPath(c: Config, s: State, events: seq<Event>)
    requires PlainArgv(c) && AtRest(s) && Run(c, s, events).tally.lapses == 0
    ensures PhaseOnPath(c, Next(c, s), Run(c, s, events))
  {
    hide Step, PhaseOnPath, Next, Run;
    if events == [] {
      RunEmpty(c, s);
      StartsOnPath(c, s);
    } else {
      RunLast(c, s, events);
      RunsStayOnPath(c, s, events[..|events| - 1]);
      StepStaysOnPath(c, Next(c, s), Run(c, s, events[..|events| - 1]), events[|events| - 1]);
    }
  }

  lemma RunEmpty(c: Config, s: State)
    ensures Run(c, s, []) == s
  {
  }

  lemma StartsOnPath(c: Config, s: State)
    requires AtRest(s)
    ensures PhaseOnPath(c, Next(c, s), s)
  {
    hide NextArgs;
    assert At(c, Next(c, s), Next(c, s), 0, 0, 0);
  }

  /** In every phase the retry reboots so far, and one that is under way, are paid for. */
  lemma PhaseIsPaid(c: Config, base: seq<string>, s: State) returns (pending: nat)
    requires PhaseOnPath(c, base, s)
    ensures Paid(c, base, Spent(s.tally) + pending, Met(s.tally))
  {
    hide NextArgs, Live, Found, OnPath, Next, CommandOf, Idle;
    var r, n := Spent(s.tally), Met(s.tally);
    pending := 0;
    match s.phase
    case Off => LivePays(c, base, Next(c, s), r, n);
    case Collected(o) => LivePays(c, base, o, r, n);
    case Started(o) => LivePays(c, base, o, r, n);
    case Armed(o) => OnPathLater(c, base, o, r, n, r, n);
    case Installing(o) => OnPathLater(c, base, o, r, n, r, n);
    case Retrying(o) => OnPathLater(c, base, o, r, n, r, n);
    case Restarting => pending := 1; LivePays(c, base, Next(c, s), r + 1, n);
    case Clearing(o, _) => LivePays(c, base, o, r, n);
    case Unlinking(o, _) => LivePays(c, base, o, r, n);
    case Menu(o, _) => LivePays(c, base, o, r, n);
    case MenuInstall(o) => LivePays(c, base, o, r, n);
    case Returned(o, _) => LivePays(c, base, o, r, n);
  }

  /** The retry reboots of a run are counted by a stretch of messages no longer than its retries and crashes. */
  lemma RetriesAreOnPath(c: Config, s: State, events: seq<Event>) returns (start: seq<string>, i: nat)
    requires PlainArgv(c) && AtRest(s) && Run(c, s, events).tally.lapses == 0
    ensures start == Next(c, s) || start == Persisted(Next(c, s))
    ensures Reaches(c, start, i) && Spent(Run(c, s, events).tally) <= Retries(c, start, i)
    ensures i <= Retries(c, start, i) + Met(Run(c, s, events).tally)
  {
    hide Run, Next, NextArgs, Persisted, PhaseOnPath, Stored, Retries;
    RunsStayOnPath(c, s, events);
    var base, t := Next(c, s), Run(c, s, events).tally;
    var pending := PhaseIsPaid(c, base, Run(c, s, events));
    var o :| OnPath(c, base, o, Spent(t) + pending, Met(t));
    start := if Follows(c, base, o, Spent(t) + pending, Met(t)) then base else Persisted(base);
    i :| At(c, start, o, Spent(t) + pending, Met(t), i);
  }

  lemma UpdateIsFound(c: Config, base: seq<string>, o: seq<string>, r: int, n: int)
    requires Found(c, base, o, r, n) && HasUpdate(o)
    ensures OnPath(c, base, o, r, n)
  {
    hide OnPath, Idle;
    if !OnPath(c, base, o, r, n) { IdleInstallsNothing(o); }
  }

  lemma PhaseStores(c: Config, base: seq<string>, s: State) returns (r: int, n: int)
    requires PhaseOnPath(c, base, s) && HasUpdate(OptionsOf(s.bcb))
    ensures OnPath(c, base, OptionsOf(s.bcb), r, n) && r + n <= Spent(s.tally) + Met(s.tally) + 1
  {
    hide NextArgs, Live, Found, OnPath, HasUpdate, OptionsOf, Idle;
    NothingToInstall();
    NextOptions(c, s);
    r, n := Spent(s.tally), Met(s.tally);
    match s.phase {
      case Restarting => r := r + 1;
      case Started(_) | Armed(_) | Installing(_) | Retrying(_) | Clearing(_, _) => n := n + 1;
      case _ =>
    }
    UpdateIsFound(c, base, OptionsOf(s.bcb), r, n);
  }

  /**
   In every state that is reached without a lapse, a BCB that asks for an update holds one of
   the messages that follow the first list, and one no further on than the retries, crashes and
   failures so far have taken it.
   */
  lemma StoredListsAreOnPath(c: Config, s: State, events: seq<Event>) returns (start: seq<string>, i: nat)
    requires PlainArgv(c) && AtRest(s) && Run(c, s, events).tally.lapses == 0
    requires HasUpdate(OptionsOf(Run(c, s, events).bcb))
    ensures start == Next(c, s) || start == Persisted(Next(c, s))
    ensures Reaches(c, start, i) && OptionsOf(Run(c, s, events).bcb) == Stored(c, start, i)
    ensures var t := Run(c, s, events).tally; i <= t.retries + t.crashes + t.failures + 1
  {
    hide Run, Next, NextArgs, Persisted, PhaseOnPath, Stored, Retries, OptionsOf, HasUpdate;
    RunsStayOnPath(c, s, events);
    var base, o := Next(c, s), OptionsOf(Run(c, s, events).bcb);
    var r, n := PhaseStores(c, base, Run(c, s, events));
    start := if Follows(c, base, o, r, n) then base else Persisted(base);
    i :| At(c, start, o, r, n, i);
  }

  // ---- A run along the path ----

  /** One boot that stores the next message: with a retry reboot if it can, or else with a crash. */
  function Hop(o: seq<string>): seq<Event> {
    if Retryable(o) then RetryCycle(CountOf(o) == 0) else [Boot, WriteBack] + [StoreFirstCount, Crash]
  }

  function Climb(c: Config, start: seq<string>, i: nat): seq<Event> {
    if i == 0 then [] else Climb(c, start, i - 1) + Hop(Stored(c, start, i - 1))
  }

  lemma CrashHopRuns(c: Config, s: State, o: seq<string>) returns (b: Block)
    requires s.phase.Off? && Next(c, s) == o && HasUpdate(o) && CountOf(o) == 0
    ensures Run(c, s, [Boot, WriteBack] + [StoreFirstCount, Crash]) ==
            State(Update(b, RetryOptions([c.argv0] + o, 1)), s.command, Off, s.tally.(crashes := s.tally.crashes + 1))
  {
    hide CommandOf, Update, NextArgs, RetryOptions, Run, Mountable, Next;
    NothingToInstall();
    BootsInto(c, s, o);
    var t := Run(c, s, [Boot, WriteBack]);
    b := t.bcb;
    RunAppend(c, s, [Boot, WriteBack], [StoreFirstCount, Crash]);
    assert [StoreFirstCount, Crash] == [StoreFirstCount] + [Crash];
    RunFirst(c, t, StoreFirstCount, [Crash]);
    RunOne(c, Step(c, t, StoreFirstCount), Crash);
  }

  lemma HopRuns(c: Config, s: State, o: seq<string>)
    requires PlainArgv(c) && s.phase.Off? && Next(c, s) == o && Passable(o)
    ensures var t := Run(c, s, Hop(o));
            && t.phase.Off? && Next(c, t) == Successor(c, o)
            && t.tally.retries == s.tally.retries + (if Retryable(o) then 1 else 0)
            && t.tally.crashes == s.tally.crashes + (if Retryable(o) then 0 else 1)
            && t.tally.lapses == s.tally.lapses && t.tally.failures == s.tally.failures
  {
    hide CommandOf, Update, NextArgs, RetryOptions, Run, Mountable, Next, Successor, RetryCycle;
    NothingToInstall();
    var b;
    if Retryable(o) {
      b := CycleRuns(c, s, o);
    } else {
      b := CrashHopRuns(c, s, o);
    }
    NextAfterStoring(c, o, Run(c, s, Hop(o)), b);
  }

  lemma {:induction false} ClimbRuns(c: Config, s: State, start: seq<string>, i: nat)
    requires PlainArgv(c) && s.phase.Off? && Next(c, s) == start && Reaches(c, start, i)
    ensures var t := Run(c, s, Climb(c, start, i));
            && t.phase.Off? && Next(c, t) == Stored(c, start, i)
            && t.tally.retries == s.tally.retries + Retries(c, start, i)
            && t.tally.crashes == s.tally.crashes + i - Retries(c, start, i)
            && t.tally.lapses == s.tally.lapses && t.tally.failures == s.tally.failures
    decreases i
  {
    hide Run, Next, Passable, Retryable, Hop, Successor, PlainArgv;
    if i == 0 {
      RunEmpty(c, s);
    } else {
      ClimbRuns(c, s, start, i - 1);
      var t := Run(c, s, Climb(c, start, i - 1));
      HopRuns(c, t, Stored(c, start, i - 1));
      RunAppend(c, s, Climb(c, start, i - 1), Hop(Stored(c, start, i - 1)));
    }
  }

  /** A first boot that crashes once get_args has written its arguments back. */
  lemma CutStartRuns(c: Config, s: State)
    requires s.phase.Off? && Next(c, s) != []
    ensures var t := Run(c, s, [Boot, WriteBack] + [Crash]);
            && t.phase.Off? && Next(c, t) == Persisted(Next(c, s))
            && t.tally == s.tally.(crashes := s.tally.crashes + 1)
  {
    hide CommandOf, Update, NextArgs, Run, Mountable, Next, Persisted;
    var o := Next(c, s);
    BootsInto(c, s, o);
    var t := Run(c, s, [Boot, WriteBack]);
    RunAppend(c, s, [Boot, WriteBack], [Crash]);
    RunOne(c, t, Crash);
    NextAfterWriteBack(c, s, Run(c, s, [Boot, WriteBack] + [Crash]));
  }

  lemma CutStartIsLimited(c: Config, s: State)
    requires PlainArgv(c) && AtRest(s) && LimitHolds(c, s)
    ensures Limited(c, Persisted(Next(c, s)))
  {
    hide Run, Next, Persisted, Stored, Retries;
    var start := Persisted(Next(c, s));
    forall i: nat | Reaches(c, start, i) ensures Retries(c, start, i) <= RETRY_LIMIT {
      if Next(c, s) == [] {
        IdlePersists();
        NothingToInstall();
        NothingRetries(c, i);
      } else {
        CutStartRuns(c, s);
        var t := Run(c, s, [Boot, WriteBack] + [Crash]);
        ClimbRuns(c, t, start, i);
        RunAppend(c, s, [Boot, WriteBack] + [Crash], Climb(c, start, i));
      }
    }
  }

  lemma NothingRetries(c: Config, i: nat)
    requires Reaches(c, [], i)
    ensures Retries(c, [], i) == 0
  {
    hide CommandOf;
    NothingToInstall();
    assert !Passable(Stored(c, [], 0));
  }

  /**
   Exactly when the retry limit works, for every state of the BCB and of the command file: when
   among the messages that follow each other from the first option list, or from what is left
   of it after it was written back, at most four may be retried.
   */
  lemma RetryLimitHoldsIff(c: Config, s: State)
    requires PlainArgv(c) && AtRest(s)
    ensures LimitHolds(c, s) <==> Limited(c, Next(c, s)) && Limited(c, Persisted(Next(c, s)))
  {
    hide Run, Next, Persisted, Stored, Retries;
    if LimitHolds(c, s) {
      CutStartIsLimited(c, s);
      forall i: nat | Reaches(c, Next(c, s), i) ensures Retries(c, Next(c, s), i) <= RETRY_LIMIT {
        ClimbRuns(c, s, Next(c, s), i);
      }
    } else {
      var events :| Run(c, s, events).tally.lapses == 0 && RETRY_LIMIT < Spent(Run(c, s, events).tally);
      var start, i := RetriesAreOnPath(c, s, events);
    }
  }
}
