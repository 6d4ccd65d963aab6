/**
 How often an interrupted or failing update can repeat itself. The retry count lives in the
 BCB as the last line of a text that also gains a copy of argv[0] each time it is written.
 */
module RetryBound {
  import opened Common
  import opened BootMessage
  import opened Options
  import opened RecoveryMain
  import opened Recovery

  /** The option list the BCB holds once the count is `k`: k extra copies of argv[0] and one count. */
  function Message(c: Config, base: seq<string>, k: nat): seq<string> {
    if k == 0 then base else Repeat(c.argv0, k) + base + [RetryToken(k)]
  }

  predicate NoCount(tokens: seq<string>) { forall i | 0 <= i < |tokens| :: !StartsWith(tokens[i], RETRY_PREFIX) }

  /** recovery's own name is one line and no option. */
  predicate PlainArgv(c: Config) { CleanLine(c.argv0) && !StartsWith(c.argv0, "--") }

  /** An update that was never tried. */
  predicate Untried(c: Config, base: seq<string>) {
    PlainArgv(c) && Clean(base) && NoCount(base) && HasUpdate(base) && CountOf(base) == 0
  }

  /** Its option list is finished, and the BCB has room for the last message. */
  predicate Counting(c: Config, base: seq<string>) {
    ScanEnd(StartAct, base) == Ready && Fits(Message(c, base, RETRY_LIMIT))
  }

  predicate Fresh(c: Config, base: seq<string>) { Untried(c, base) && Counting(c, base) }

  // ---- Messages ----

  lemma {:induction false} KeptAll(tokens: seq<string>)
    requires NoCount(tokens)
    ensures Kept(tokens) == tokens
  {
    if tokens != [] { KeptAll(tokens[1..]); }
  }

  lemma {:induction false} KeptAppend(a: seq<string>, b: seq<string>)
    ensures Kept(a + b) == Kept(a) + Kept(b)
  {
    if a == [] {
      assert a + b == b;
    } else {
      assert (a + b)[1..] == a[1..] + b;
      KeptAppend(a[1..], b);
    }
  }

  lemma KeptDropsCount(k: nat)
    ensures Kept([RetryToken(k)]) == []
  {
    assert RetryToken(k)[..13] == RETRY_PREFIX;
    assert [RetryToken(k)][1..] == [];
  }

  lemma PlainArgvHasNoCount(argv0: string)
    requires !StartsWith(argv0, "--")
    ensures !StartsWith(argv0, RETRY_PREFIX)
  {
    assert RETRY_PREFIX[..2] == "--";
    assert 13 <= |argv0| ==> argv0[..2] == argv0[..13][..2];
  }

  /** set_retry_bootloader_message keeps every option in order, adds one argv[0] and replaces the count. */
  lemma NextMessage(c: Config, base: seq<string>, k: nat)
    requires NoCount(base) && !StartsWith(c.argv0, "--")
    ensures RetryOptions([c.argv0] + Message(c, base, k), k + 1) == Message(c, base, k + 1)
  {
    PlainArgvHasNoCount(c.argv0);
    var front := Repeat(c.argv0, k + 1) + base;
    KeptAll(front);
    if k == 0 {
      assert [c.argv0] + base == front;
    } else {
      assert [c.argv0] + Message(c, base, k) == front + [RetryToken(k)];
      KeptAppend(front, [RetryToken(k)]);
      KeptDropsCount(k);
    }
  }

  lemma {:induction false} RepeatWeight(x: string, k: nat, n: nat)
    requires k <= n
    ensures Weight(Repeat(x, k)) <= Weight(Repeat(x, n))
  {
    if 0 < k {
      assert Repeat(x, k)[1..] == Repeat(x, k - 1) && Repeat(x, n)[1..] == Repeat(x, n - 1);
      RepeatWeight(x, k - 1, n - 1);
    }
  }

  lemma MessageClean(c: Config, base: seq<string>, k: nat)
    requires CleanLine(c.argv0) && Clean(base) && k < 10
    ensures Clean(Message(c, base, k))
    ensures |MessageText(Message(c, base, k))| == |HEADER| + Weight(Message(c, base, k))
    ensures 0 < k ==> Weight(Message(c, base, k)) == Weight(Repeat(c.argv0, k)) + Weight(base) + 16
  {
    if 0 < k {
      var token := RetryToken(k);
      assert Decimal(k) == [DIGITS[k]] && |token| == 15;
      assert DIGITS[k] != '\n' && DIGITS[k] != '\0';
      assert CleanLine(token);
      WeightAppend(Repeat(c.argv0, k) + base, [token]);
      WeightAppend(Repeat(c.argv0, k), base);
      assert Weight([token]) == |token| + 1;
    }
    BodyWeight(Message(c, base, k));
  }

  /** If the message with `n` copies fits, so do all before it, and each is read back as written. */
  lemma MessagesPersist(c: Config, base: seq<string>, k: nat, n: nat, b: Block)
    requires CleanLine(c.argv0) && Clean(base) && k <= n < 10 && Fits(Message(c, base, n))
    ensures OptionsOf(Update(b, Message(c, base, k))) == Message(c, base, k)
  {
    MessageClean(c, base, k);
    MessageClean(c, base, n);
    RepeatWeight(c.argv0, k, n);
    ReadBack(b, Message(c, base, k));
  }

  lemma CopiesMeanNothing(c: Config, base: seq<string>, k: nat)
    requires !StartsWith(c.argv0, "--")
    ensures CommandOf(Repeat(c.argv0, k) + base) == CommandOf(base)
    ensures ScanEnd(StartAct, Repeat(c.argv0, k) + base) == ScanEnd(StartAct, base)
  {
    assert "--" == "--"[..2];
    OperandsArePassedOver(StartAct, c.argv0, k, base);
  }

  lemma MessageMeaning(c: Config, base: seq<string>, k: nat)
    requires Untried(c, base) && ScanEnd(StartAct, base) == Ready && k <= RETRY_LIMIT
    ensures CommandOf(Message(c, base, k)) == CommandOf(base).(retryCount := k)
  {
    hide CommandOf;
    if 0 < k {
      CopiesMeanNothing(c, base, k);
      AppendedCountMeaning(Repeat(c.argv0, k) + base, k);
    }
  }

  // ---- The invariant ----

  /** The retry count of an update command, and 5 for a command line that installs nothing. */
  function Level(options: seq<string>): nat { if HasUpdate(options) then CountOf(options) else RETRY_LIMIT + 1 }

  /** A command line of this update's history: one of its messages, or nothing to install. */
  predicate Sane(c: Config, base: seq<string>, options: seq<string>) {
    HasUpdate(options) ==> CountOf(options) <= RETRY_LIMIT && options == Message(c, base, CountOf(options))
  }

  /** The options a bare boot would find now. */
  function Next(c: Config, s: State): seq<string> { NextArgs(c, s)[1..] }

  /** The command file holds the update as well, so that clearing the BCB does not end it. */
  predicate Held(c: Config, base: seq<string>, s: State) {
    CommandFile(c, s).Some? && Lines(CommandFile(c, s).value) == base
  }

  /** Options that install nothing and survive a reboot. */
  predicate Unrelated(options: seq<string>) { !HasUpdate(options) && Clean(options) && Fits(options) }

  predicate Known(c: Config, base: seq<string>, held: bool, s: State) {
    && Sane(c, base, OptionsOf(s.bcb))
    && (CommandFile(c, s).Some? ==> (held && Held(c, base, s)) || Unrelated(Lines(CommandFile(c, s).value)))
  }

  /** How many times the update may have been started from the beginning. */
  function Rounds(held: bool, t: Tally): nat { 1 + if held then t.lapses else 0 }

  predicate Within(held: bool, t: Tally, installs: int, retries: int) {
    && t.installs + installs <= 5 * Rounds(held, t) + t.crashes + t.reentries + t.failures
    && t.retries + retries <= 4 * Rounds(held, t) + t.failures
  }

  function RebootsLeft(level: nat): nat { if level < RETRY_LIMIT then RETRY_LIMIT - level else 0 }

  /** A boot into a message of this level is paid for. */
  predicate Bootable(held: bool, t: Tally, next: nat) { Within(held, t, 5 - next, RebootsLeft(next)) }

  /** It is, once a crash or a failure has led to it. */
  predicate Crashable(held: bool, t: Tally, next: nat) { Within(held, t, 4 - next, RebootsLeft(next)) }

  predicate InFlight(c: Config, base: seq<string>, held: bool, t: Tally, o: seq<string>) {
    HasUpdate(o) && Sane(c, base, o) && Within(held, t, RETRY_LIMIT - Level(o), RETRY_LIMIT - Level(o))
  }

  /** The running command may be entered once more, which adds an install of its own. */
  predicate Settled(c: Config, base: seq<string>, held: bool, t: Tally, o: seq<string>) {
    Sane(c, base, o) && Within(held, t, 0, 0) && Within(held, t, RETRY_LIMIT - Level(o), RebootsLeft(Level(o)))
  }

  /** start_recovery has finished once; a command file that is still there starts the update again. */
  predicate FinishedOnce(c: Config, base: seq<string>, held: bool, s: State, o: seq<string>) {
    && Settled(c, base, held, s.tally, o) && Bootable(held, s.tally, Level(Next(c, s)))
    && (Held(c, base, s) ==> Within(held, s.tally, 5, 4))
  }

  predicate PhaseInv(c: Config, base: seq<string>, held: bool, s: State) {
    var t, next := s.tally, Level(Next(c, s));
    match s.phase
    case Off => Bootable(held, t, next)
    case Collected(o) => o == Next(c, s) && Bootable(held, t, next)
    case Started(o) => Sane(c, base, o) && Bootable(held, t, Level(o)) && Bootable(held, t, next)
    case Armed(o) =>
      HasUpdate(o) && Sane(c, base, o) && Level(o) == 0 && Bootable(held, t, 0) && Bootable(held, t, next)
    case Installing(o) => InFlight(c, base, held, t, o) && Crashable(held, t, next)
    case Retrying(o) => InFlight(c, base, held, t, o) && Level(o) < RETRY_LIMIT && Crashable(held, t, next)
    case Restarting => Within(held, t, 5 - next, RebootsLeft(next) + 1)
    case Clearing(o, _) => Settled(c, base, held, t, o) && Crashable(held, t, next)
    case Unlinking(o, _) => Settled(c, base, held, t, o) && (OptionsOf(s.bcb) == [] || Bootable(held, t, next))
    case Menu(o, _) => FinishedOnce(c, base, held, s, o)
    case MenuInstall(o) => FinishedOnce(c, base, held, s, o)
    case Returned(o, _) => FinishedOnce(c, base, held, s, o)
  }

  predicate Inv(c: Config, base: seq<string>, held: bool, s: State) {
    Known(c, base, held, s) && PhaseInv(c, base, held, s)
  }

  // ---- Facts about the next boot ----

  lemma NextOptions(c: Config, s: State)
    ensures OptionsOf(s.bcb) != [] ==> Next(c, s) == OptionsOf(s.bcb)
    ensures OptionsOf(s.bcb) == [] && CommandFile(c, s).Some? ==> Next(c, s) == Lines(CommandFile(c, s).value)
    ensures OptionsOf(s.bcb) == [] && CommandFile(c, s).None? ==> Next(c, s) == []
  {
    assert forall o: seq<string> :: ([c.argv0] + o)[1..] == o;
  }

  lemma NothingToInstall()
    ensures !HasUpdate([])
  {
  }

  lemma NextIsSane(c: Config, base: seq<string>, held: bool, s: State)
    requires Fresh(c, base) && Known(c, base, held, s)
    ensures Sane(c, base, Next(c, s)) && Level(Next(c, s)) <= 5
    ensures OptionsOf(s.bcb) == [] ==> Level(Next(c, s)) == 0 || Level(Next(c, s)) == 5
  {
    NextOptions(c, s);
    NothingToInstall();
  }

  lemma NextAfterStore(c: Config, base: seq<string>, s: State, k: nat)
    requires Fresh(c, base) && k <= RETRY_LIMIT
    requires OptionsOf(s.bcb) == Message(c, base, k)
    ensures Level(Next(c, s)) == k && Sane(c, base, OptionsOf(s.bcb))
  {
    MessageMeaning(c, base, k);
    NothingToInstall();
    NextOptions(c, s);
  }

  // ---- Every step keeps the invariant ----

  lemma CrashKeepsKnown(c: Config, base: seq<string>, held: bool, s: State)
    requires Known(c, base, held, s)
    ensures Known(c, base, held, Crashed(s)) && Next(c, Crashed(s)) == Next(c, s)
  {
    hide Sane, HasUpdate, OptionsOf, Gathered, Lines, Clean, Fits;
  }

  lemma CrashInPhase(c: Config, base: seq<string>, held: bool, s: State)
    requires PhaseInv(c, base, held, s) && !s.phase.Unlinking? && Level(Next(c, s)) <= 5
    ensures Within(held, Crashed(s).tally, 5 - Level(Next(c, s)), RebootsLeft(Level(Next(c, s))))
  {
    hide HasUpdate, CountOf, OptionsOf, Message, NextArgs;
    NothingToInstall();
  }

  lemma CrashWhileUnlinking(c: Config, base: seq<string>, held: bool, s: State)
    requires Fresh(c, base) && Inv(c, base, held, s) && s.phase.Unlinking?
    ensures Within(held, Crashed(s).tally, 5 - Level(Next(c, s)), RebootsLeft(Level(Next(c, s))))
  {
    hide Sane, HasUpdate, OptionsOf, Message, NextArgs, Lines, Clean, Fits;
    NextOptions(c, s);
    NothingToInstall();
  }

  lemma CrashKeepsInv(c: Config, base: seq<string>, held: bool, s: State)
    requires Fresh(c, base) && Inv(c, base, held, s)
    ensures Inv(c, base, held, Crashed(s))
  {
    hide Sane, HasUpdate, OptionsOf, Message, Next, Fresh, Known, Level, Within;
    NextIsSane(c, base, held, s);
    CrashKeepsKnown(c, base, held, s);
    if s.phase.Unlinking? {
      CrashWhileUnlinking(c, base, held, s);
    } else {
      CrashInPhase(c, base, held, s);
    }
  }

  lemma OneTokenUpdates(act: string -> Act, token: string)
    requires act(token).Emit? ==> act(token).hit.key != UpdatePackage
    ensures Interpret(Scan(act, [token])).updatePackage.None?
  {
    hide ParseInt, ParseUint;
    assert [token][1..] == [];
    if act(token).Emit? {
      var h := act(token).hit;
      ScanOne(act, token, h);
      assert [] + [h] == [h];
      InterpretOneMore([], h);
      match h.key {
        case UpdatePackage =>
        case _ =>
      }
    }
  }

  lemma PlainTokenIsNoUpdate(token: string)
    requires '=' !in token
    ensures !HasUpdate([token])
  {
    hide StartAct;
    PlainToken(token);
    OneTokenUpdates(StartAct, token);
  }

  /** What get_args collects survives being written back. */
  lemma NextPersists(c: Config, base: seq<string>, held: bool, s: State)
    requires Fresh(c, base) && Known(c, base, held, s)
    ensures OptionsOf(Update(s.bcb, Next(c, s))) == Next(c, s)
  {
    hide CommandOf, Mountable, OptionsOf, Update, Gathered, Lines, NextArgs, Clean, Fits, RetryToken;
    NextOptions(c, s);
    StoredOptionsArePersistable(s.bcb);
    NothingPersists(s.bcb);
    if OptionsOf(s.bcb) != [] || !Held(c, base, s) {
      assert Next(c, s) == [] || (Clean(Next(c, s)) && Fits(Next(c, s)));
      if Next(c, s) != [] { ReadBack(s.bcb, Next(c, s)); }
    } else {
      MessagesPersist(c, base, 0, RETRY_LIMIT, s.bcb);
    }
  }

  /** The command line after get_args: what it found, or a boot mode instead of nothing. */
  lemma StartedOptions(c: Config, o: seq<string>, b: Block)
    ensures var args := WithBootMode([c.argv0] + o, b)[1..]; args == o || !HasUpdate(args)
  {
    hide CommandOf, CString;
    PlainTokenIsNoUpdate("--fastboot");
    PlainTokenIsNoUpdate("--rescue");
    assert ([c.argv0] + o)[1..] == o;
    assert ([c.argv0] + o + ["--fastboot"])[1..] == o + ["--fastboot"];
    assert ([c.argv0] + o + ["--rescue"])[1..] == o + ["--rescue"];
    assert o == [] ==> o + ["--fastboot"] == ["--fastboot"] && o + ["--rescue"] == ["--rescue"];
  }

  /** get_args goes on with what it found, whether it could write that back or not. */
  lemma StartingKeepsInv(c: Config, base: seq<string>, held: bool, s: State, t: State)
    requires Fresh(c, base) && Inv(c, base, held, s) && s.phase.Collected? && Known(c, base, held, t)
    requires Next(c, t) == Next(c, s) && (t.tally == s.tally || t.tally == Failed(s.tally))
    requires t.phase == Started(WithBootMode([c.argv0] + s.phase.options, s.bcb)[1..])
    ensures Inv(c, base, held, t)
  {
    hide HasUpdate, CountOf, OptionsOf, NextArgs, Message, WithBootMode, CommandFile, Fresh, Next;
    NextIsSane(c, base, held, s);
    StartedOptions(c, s.phase.options, s.bcb);
  }

  lemma WriteBackKeepsInv(c: Config, base: seq<string>, held: bool, s: State)
    requires Fresh(c, base) && Inv(c, base, held, s) && s.phase.Collected?
    ensures Inv(c, base, held, BootStep(c, s, WriteBack))
  {
    hide HasUpdate, CountOf, OptionsOf, Update, Lines, Gathered, Message, WithBootMode, Clean, Fits, PhaseInv;
    var t := BootStep(c, s, WriteBack);
    assert s.phase.options == Next(c, s) by { CollectedIsNext(c, base, held, s); }
    NextIsSane(c, base, held, s);
    NextPersists(c, base, held, s);
    NextOptions(c, s);
    NextOptions(c, t);
    StartingKeepsInv(c, base, held, s, t);
  }

  lemma CollectedIsNext(c: Config, base: seq<string>, held: bool, s: State)
    requires PhaseInv(c, base, held, s) && s.phase.Collected?
    ensures s.phase.options == Next(c, s)
  {
  }

  lemma WriteBackFailsKeepsInv(c: Config, base: seq<string>, held: bool, s: State)
    requires Fresh(c, base) && Inv(c, base, held, s) && s.phase.Collected?
    ensures Inv(c, base, held, BootStep(c, s, WriteBackFails))
  {
    hide HasUpdate, OptionsOf, NextArgs, Message, WithBootMode, CommandFile, PhaseInv;
    NextFrame(c, base, held, s, BootStep(c, s, WriteBackFails));
    StartingKeepsInv(c, base, held, s, BootStep(c, s, WriteBackFails));
  }

  lemma BootKeepsInv(c: Config, base: seq<string>, held: bool, s: State, e: Event)
    requires Fresh(c, base) && Inv(c, base, held, s) && (s.phase.Off? || s.phase.Collected?)
    ensures Inv(c, base, held, BootStep(c, s, e))
  {
    hide CommandOf, Mountable, ReasonOf, OptionsOf, Update, Lines, RetryOptions, Gathered, Message;
    if s.phase.Collected? && e.WriteBack? {
      WriteBackKeepsInv(c, base, held, s);
    } else if s.phase.Collected? && e.WriteBackFails? {
      WriteBackFailsKeepsInv(c, base, held, s);
    } else {
      assert Next(c, BootStep(c, s, e)) == Next(c, s);
    }
  }

  lemma StoreFirstCountKeepsInv(c: Config, base: seq<string>, held: bool, s: State)
    requires Fresh(c, base) && Inv(c, base, held, s) && s.phase.Started?
    requires HasUpdate(s.phase.options) && CountOf(s.phase.options) == 0
    ensures Inv(c, base, held, StartStep(c, s, StoreFirstCount))
  {
    hide CommandOf, Mountable, ReasonOf, OptionsOf, Update, Lines, RetryOptions, Gathered, Message;
    NextMessage(c, base, 0);
    MessagesPersist(c, base, 1, RETRY_LIMIT, s.bcb);
    NextAfterStore(c, base, StartStep(c, s, StoreFirstCount), 1);
  }

  /** A phase change that touches neither the BCB nor the command file. */
  lemma NextFrame(c: Config, base: seq<string>, held: bool, s: State, t: State)
    requires s.bcb == t.bcb && s.command == t.command && Known(c, base, held, s)
    ensures Next(c, t) == Next(c, s) && Known(c, base, held, t)
  {
  }

  /** The update is over for this boot, or there was none. */
  lemma SettlingKeepsInv(c: Config, base: seq<string>, held: bool, s: State, phase: Phase)
    requires Fresh(c, base) && Inv(c, base, held, s) && (s.phase.Started? || s.phase.Armed?)
    requires phase.Clearing? && phase.options == s.phase.options
    ensures Inv(c, base, held, s.(phase := phase))
  {
    hide HasUpdate, CountOf, NextArgs, Message, Fresh, CommandFile, OptionsOf, Unrelated;
    NextIsSane(c, base, held, s);
    NextFrame(c, base, held, s, s.(phase := phase));
  }

  lemma InstallBeginKeepsInv(c: Config, base: seq<string>, held: bool, s: State)
    requires Inv(c, base, held, s) && (s.phase.Started? || s.phase.Armed?) && HasUpdate(s.phase.options)
    ensures Inv(c, base, held, InstallBegun(s))
  {
    hide CommandOf, NextArgs, Message, CommandFile, OptionsOf, Unrelated;
    NextFrame(c, base, held, s, InstallBegun(s));
  }

  lemma StoreFirstFailsKeepsInv(c: Config, base: seq<string>, held: bool, s: State)
    requires Inv(c, base, held, s) && s.phase.Started? && HasUpdate(s.phase.options) && CountOf(s.phase.options) == 0
    ensures Inv(c, base, held, s.(phase := Armed(s.phase.options), tally := Failed(s.tally)))
  {
    hide CommandOf, NextArgs, Message, CommandFile, OptionsOf, Unrelated;
    NextFrame(c, base, held, s, s.(phase := Armed(s.phase.options), tally := Failed(s.tally)));
  }

  lemma StartKeepsInv(c: Config, base: seq<string>, held: bool, s: State, e: Event)
    requires Fresh(c, base) && Inv(c, base, held, s) && s.phase.Started?
    ensures Inv(c, base, held, StartStep(c, s, e))
  {
    hide CommandOf, Mountable, ReasonOf, Update, RetryOptions, Warned, Fresh, Inv;
    var o, t := s.phase.options, StartStep(c, s, e);
    if e.StoreFirstCount? && HasUpdate(o) && CountOf(o) == 0 {
      StoreFirstCountKeepsInv(c, base, held, s);
    } else if e.StoreFirstFails? && HasUpdate(o) && CountOf(o) == 0 {
      StoreFirstFailsKeepsInv(c, base, held, s);
    } else if e.BeginInstall? && HasUpdate(o) && CountOf(o) != 0 && Installable(o) {
      InstallBeginKeepsInv(c, base, held, s);
    } else if t != s {
      SettlingKeepsInv(c, base, held, s, t.phase);
    }
  }

  lemma StoreNextCountKeepsInv(c: Config, base: seq<string>, held: bool, s: State)
    requires Fresh(c, base) && Inv(c, base, held, s) && s.phase.Retrying?
    ensures Inv(c, base, held, InstallStep(c, s, StoreNextCount))
  {
    hide CommandOf, Mountable, ReasonOf, OptionsOf, Update, Lines, RetryOptions, Gathered, Message;
    var k := Level(s.phase.options);
    NextMessage(c, base, k);
    MessagesPersist(c, base, k + 1, RETRY_LIMIT, s.bcb);
    NextAfterStore(c, base, InstallStep(c, s, StoreNextCount), k + 1);
  }

  lemma StoreNextFailsKeepsInv(c: Config, base: seq<string>, held: bool, s: State)
    requires Fresh(c, base) && Inv(c, base, held, s) && s.phase.Retrying?
    ensures Inv(c, base, held, InstallStep(c, s, StoreNextFails))
  {
    hide HasUpdate, CountOf, NextArgs, Message, CommandFile, OptionsOf, Unrelated;
    NextFrame(c, base, held, s, InstallStep(c, s, StoreNextFails));
  }

  lemma EndingKeepsInv(c: Config, base: seq<string>, held: bool, s: State, e: Event)
    requires Fresh(c, base) && Inv(c, base, held, s) && (s.phase.Installing? || s.phase.Restarting?)
    ensures Inv(c, base, held, InstallStep(c, s, e))
  {
    hide CommandOf, Mountable, ReasonOf, OptionsOf, Update, Lines;
    hide RetryOptions, NextArgs, Message, Warned, Fresh, CommandFile;
    NextIsSane(c, base, held, s);
    NextFrame(c, base, held, s, InstallStep(c, s, e));
  }

  lemma InstallKeepsInv(c: Config, base: seq<string>, held: bool, s: State, e: Event)
    requires Fresh(c, base) && Inv(c, base, held, s)
    requires s.phase.Armed? || s.phase.Installing? || s.phase.Retrying? || s.phase.Restarting?
    ensures Inv(c, base, held, InstallStep(c, s, e))
  {
    hide CommandOf, Mountable, ReasonOf, Update, RetryOptions, Warned, Fresh, PhaseInv, Known;
    if s.phase.Installing? || s.phase.Restarting? {
      EndingKeepsInv(c, base, held, s, e);
    } else if s.phase.Retrying? && e.StoreNextCount? {
      StoreNextCountKeepsInv(c, base, held, s);
    } else if s.phase.Retrying? && e.StoreNextFails? {
      StoreNextFailsKeepsInv(c, base, held, s);
    } else if s.phase.Armed? && e.MountFails? {
      SettlingKeepsInv(c, base, held, s, InstallStep(c, s, e).phase);
    } else if s.phase.Armed? && e.BeginInstall? && Installable(s.phase.options) {
      InstallBeginKeepsInv(c, base, held, s);
    }
  }

  lemma ClearingKeepsInv(c: Config, base: seq<string>, held: bool, s: State, e: Event)
    requires Fresh(c, base) && Inv(c, base, held, s) && s.phase.Clearing?
    ensures Inv(c, base, held, FinishStep(c, s, e))
  {
    hide HasUpdate, CountOf, OptionsOf, Update, Lines, Gathered, Message, Zeroed, Clean, Fits;
    ZeroedOptions();
    NothingToInstall();
    NextIsSane(c, base, held, s);
  }

  lemma UnlinkingKeepsInv(c: Config, base: seq<string>, held: bool, s: State, e: Event)
    requires Fresh(c, base) && Inv(c, base, held, s) && s.phase.Unlinking? && (e.UnlinkCommand? || e.UnlinkFails?)
    ensures Inv(c, base, held, FinishStep(c, s, e))
  {
    hide HasUpdate, CountOf, OptionsOf, Update, Lines, Gathered, Message, Clean, Fits, NextArgs, Sane;
    NothingToInstall();
    NextOptions(c, s);
    NextOptions(c, FinishStep(c, s, e));
    NextIsSane(c, base, held, s);
  }

  lemma FinishKeepsInv(c: Config, base: seq<string>, held: bool, s: State, e: Event)
    requires Fresh(c, base) && Inv(c, base, held, s) && (s.phase.Clearing? || s.phase.Unlinking?)
    ensures Inv(c, base, held, FinishStep(c, s, e))
  {
    hide PhaseInv, Known, Fresh;
    if s.phase.Clearing? {
      ClearingKeepsInv(c, base, held, s, e);
    } else if e.UnlinkCommand? || e.UnlinkFails? {
      UnlinkingKeepsInv(c, base, held, s, e);
    }
  }

  lemma InProgressIsNoUpdate(b: Block)
    ensures OptionsOf(Update(b, InProgressOptions())) == InProgressOptions() && !HasUpdate(InProgressOptions())
  {
    hide OptionsOf, Update, CommandOf;
    InProgressPersists(b);
    ReasonTokenMeaning(IN_PROGRESS);
  }

  lemma ReturnedKeepsInv(c: Config, base: seq<string>, held: bool, s: State, e: Event)
    requires Fresh(c, base) && Inv(c, base, held, s) && s.phase.Returned?
    ensures Inv(c, base, held, MenuStep(c, s, e))
  {
    hide CommandOf, Mountable, ReasonOf, OptionsOf, Update, Lines;
    hide RetryOptions, Gathered, Message, Fresh, RescueMessage, NextArgs;
    var t := MenuStep(c, s, e);
    NothingToInstall();
    RescueHasNoOptions();
    NextOptions(c, s);
    NextOptions(c, t);
  }

  lemma InProgressKeepsInv(c: Config, base: seq<string>, held: bool, s: State)
    requires Fresh(c, base) && Inv(c, base, held, s) && s.phase.Menu?
    ensures Inv(c, base, held, MenuStep(c, s, MenuBeginInstall))
  {
    hide HasUpdate, CountOf, OptionsOf, Update, Lines, Gathered, Message, Fresh, NextArgs, Clean, Fits;
    InProgressIsNoUpdate(s.bcb);
    NextOptions(c, MenuStep(c, s, MenuBeginInstall));
  }

  /** The menu goes on, with the BCB as it was. */
  lemma MenuMovesKeepInv(c: Config, base: seq<string>, held: bool, s: State, t: State)
    requires Fresh(c, base) && Inv(c, base, held, s) && (s.phase.Menu? || s.phase.MenuInstall?)
    requires t.bcb == s.bcb && t.command == s.command && (t.tally == s.tally || t.tally == Failed(s.tally))
    requires (t.phase.Clearing? || t.phase.MenuInstall?) && t.phase.options == s.phase.options
    ensures Inv(c, base, held, t)
  {
    hide HasUpdate, CountOf, OptionsOf, Lines, Message, Fresh, NextArgs, Unrelated;
    NextFrame(c, base, held, s, t);
  }

  lemma MenuInstallKeepsInv(c: Config, base: seq<string>, held: bool, s: State, e: Event)
    requires Fresh(c, base) && Inv(c, base, held, s) && (s.phase.Menu? || s.phase.MenuInstall?)
    ensures Inv(c, base, held, MenuStep(c, s, e))
  {
    hide Inv, Fresh, Update;
    if s.phase.Menu? && e.MenuBeginInstall? {
      InProgressKeepsInv(c, base, held, s);
    } else if MenuStep(c, s, e) != s {
      MenuMovesKeepInv(c, base, held, s, MenuStep(c, s, e));
    }
  }

  lemma MenuKeepsInv(c: Config, base: seq<string>, held: bool, s: State, e: Event)
    requires Fresh(c, base) && Inv(c, base, held, s) && (s.phase.Menu? || s.phase.MenuInstall? || s.phase.Returned?)
    ensures Inv(c, base, held, MenuStep(c, s, e))
  {
    if s.phase.Returned? {
      ReturnedKeepsInv(c, base, held, s, e);
    } else {
      MenuInstallKeepsInv(c, base, held, s, e);
    }
  }

  lemma StepKeepsInv(c: Config, base: seq<string>, held: bool, s: State, e: Event)
    requires Fresh(c, base) && Inv(c, base, held, s)
    ensures Inv(c, base, held, Step(c, s, e))
  {
    hide CommandOf, Mountable, ReasonOf, OptionsOf, Update, Lines, RetryOptions, Gathered, Message, PhaseInv;
    if e.Crash? {
      if !s.phase.Off? { CrashKeepsInv(c, base, held, s); }
    } else {
      match s.phase
      case Off | Collected(_) => BootKeepsInv(c, base, held, s, e);
      case Started(_) => StartKeepsInv(c, base, held, s, e);
      case Armed(_) | Installing(_) | Retrying(_) | Restarting => InstallKeepsInv(c, base, held, s, e);
      case Clearing(_, _) | Unlinking(_, _) => FinishKeepsInv(c, base, held, s, e);
      case Menu(_, _) | MenuInstall(_) | Returned(_, _) => MenuKeepsInv(c, base, held, s, e);
    }
  }

  // ---- Main results ----

  const NOTHING_YET: Tally := Tally(0, 0, 0, 0, 0, 0)

  /**
   The device is off, with the fresh update waiting in the BCB or in the command file. What
   else the command file may hold does not install anything.
   */
  predicate Waiting(c: Config, base: seq<string>, s: State) {
    && s.phase.Off? && s.tally == NOTHING_YET
    && (OptionsOf(s.bcb) == base || OptionsOf(s.bcb) == [])
    && (CommandFile(c, s).Some? ==> Held(c, base, s) || Unrelated(Lines(CommandFile(c, s).value)))
    && Next(c, s) == base
  }

  lemma {:induction false} RunsKeepInv(c: Config, base: seq<string>, s: State, events: seq<Event>)
    requires Fresh(c, base) && Waiting(c, base, s)
    ensures Inv(c, base, Held(c, base, s), Run(c, s, events))
  {
    hide CommandOf, Mountable, ReasonOf, OptionsOf, Update, Lines, RetryOptions, Gathered;
    if events == [] {
      NothingToInstall();
    } else {
      RunsKeepInv(c, base, s, events[..|events| - 1]);
      StepKeepsInv(c, base, Held(c, base, s), Run(c, s, events[..|events| - 1]), events[|events| - 1]);
    }
  }

  lemma InvIsWithin(c: Config, base: seq<string>, held: bool, s: State)
    requires Fresh(c, base) && Inv(c, base, held, s)
    ensures Within(held, s.tally, 0, 0)
  {
    hide HasUpdate, CountOf, OptionsOf, Message, Next, Fresh, Known;
    NextIsSane(c, base, held, s);
  }

  /**
   Over every run of boots, installs, menu actions, second calls of start_recovery, failing
   writes and crashes at any step: when the update waits in the BCB alone, at most 4 retry
   reboots plus one for each failure, and at most 5 installs plus one for each failure, crash
   and second call. When the command file holds it too, the same for each start, and the file
   starts it once more whenever it outlives FinishRecovery.
   */
  lemma RetriesAreBounded(c: Config, base: seq<string>, s: State, events: seq<Event>)
    requires Fresh(c, base) && Waiting(c, base, s)
    ensures var t := Run(c, s, events).tally;
            var starts := if Held(c, base, s) then 1 + t.lapses else 1;
            && t.retries <= 4 * starts + t.failures
            && t.installs <= 5 * starts + t.crashes + t.reentries + t.failures
  {
    RunsKeepInv(c, base, s, events);
    InvIsWithin(c, base, Held(c, base, s), Run(c, s, events));
  }

  /**
   In every reachable state a BCB that asks for the update holds a count of at most 4, exactly
   that many extra copies of argv[0], every original option in its order, and one count at the end.
   */
  lemma StoredMessagesKeepTheirShape(c: Config, base: seq<string>, s: State, events: seq<Event>)
    requires Fresh(c, base) && Waiting(c, base, s)
    ensures var stored := OptionsOf(Run(c, s, events).bcb);
            HasUpdate(stored) ==>
              && CountOf(stored) <= RETRY_LIMIT
              && (CountOf(stored) == 0 ==> stored == base)
              && (0 < CountOf(stored) ==>
                    stored == Repeat(c.argv0, CountOf(stored)) + base + [RetryToken(CountOf(stored))])
  {
    hide CommandOf, Mountable, ReasonOf, OptionsOf, Update, Lines, RetryOptions, Gathered;
    RunsKeepInv(c, base, s, events);
  }

  // ---- The bound is reached ----

  /** One boot whose install asks for a retry; `first` when no count is stored yet. */
  function RetryCycle(first: bool): seq<Event> {
    [Boot, WriteBack] + (if first then [StoreFirstCount] else [])
    + [BeginInstall, EndInstall(Retry, false), StoreNextCount, RebootToRecovery]
  }

  /** Booting into an update whose options persist. */
  lemma BootsInto(c: Config, s: State, o: seq<string>)
    requires s.phase.Off? && Next(c, s) == o && o != []
    ensures var t := Run(c, s, [Boot, WriteBack]);
            t == State(Update(s.bcb, o), s.command, Started(o), s.tally)
  {
    hide CommandOf, Mountable, OptionsOf, Update, Lines, Gathered, ReasonOf;
    RunFirst(c, s, Boot, [WriteBack]);
    RunOne(c, Step(c, s, Boot), WriteBack);
    assert ([c.argv0] + o)[1..] == o;
  }

  lemma CycleRuns(c: Config, s: State, o: seq<string>) returns (b: Block)
    requires s.phase.Off? && Next(c, s) == o && o != [] && Installable(o) && CountOf(o) < RETRY_LIMIT
    ensures var t := Run(c, s, RetryCycle(CountOf(o) == 0));
            && t.phase == Off && t.command == s.command
            && t.bcb == Update(b, RetryOptions([c.argv0] + o, CountOf(o) + 1))
            && t.tally == s.tally.(installs := s.tally.installs + 1, retries := s.tally.retries + 1)
  {
    hide CommandOf, Mountable, OptionsOf, Update, Lines, RetryOptions, Gathered, ReasonOf;
    BootsInto(c, s, o);
    var s1 := State(Update(s.bcb, o), s.command, Started(o), s.tally);
    var next := RetryOptions([c.argv0] + o, CountOf(o) + 1);
    var tail := [BeginInstall, EndInstall(Retry, false), StoreNextCount, RebootToRecovery];
    b := if CountOf(o) == 0 then Update(s1.bcb, next) else s1.bcb;
    var s2 := if CountOf(o) == 0 then State(b, s.command, Armed(o), s.tally) else s1;
    if CountOf(o) == 0 {
      assert RetryCycle(true) == [Boot, WriteBack] + ([StoreFirstCount] + tail);
      RunAppend(c, s, [Boot, WriteBack], [StoreFirstCount] + tail);
      RunFirst(c, s1, StoreFirstCount, tail);
    } else {
      assert RetryCycle(false) == [Boot, WriteBack] + tail;
      RunAppend(c, s, [Boot, WriteBack], tail);
    }
    assert Run(c, s, RetryCycle(CountOf(o) == 0)) == Run(c, s2, tail);
    InstallRuns(c, s2, o, tail);
  }

  lemma InstallRuns(c: Config, s: State, o: seq<string>, tail: seq<Event>)
    requires Installable(o) && CountOf(o) < RETRY_LIMIT
    requires s.phase == Armed(o) || (s.phase == Started(o) && CountOf(o) != 0)
    requires tail == [BeginInstall, EndInstall(Retry, false), StoreNextCount, RebootToRecovery]
    ensures Run(c, s, tail) ==
            State(Update(s.bcb, RetryOptions([c.argv0] + o, CountOf(o) + 1)), s.command, Off,
                  s.tally.(installs := s.tally.installs + 1, retries := s.tally.retries + 1))
  {
    hide CommandOf, Mountable, OptionsOf, Update, Lines, RetryOptions, Gathered, ReasonOf, Run;
    var t1 := s.tally.(installs := s.tally.installs + 1);
    var s1 := State(s.bcb, s.command, Installing(o), t1);
    assert Step(c, s, BeginInstall) == s1;
    var s2 := State(s.bcb, s.command, Retrying(o), t1);
    assert Step(c, s1, EndInstall(Retry, false)) == s2;
    var s3 := State(Update(s.bcb, RetryOptions([c.argv0] + o, CountOf(o) + 1)), s.command, Restarting, t1);
    assert Step(c, s2, StoreNextCount) == s3;
    FourSteps(c, s, s1, s2, s3, tail);
  }

  lemma FourSteps(c: Config, s: State, s1: State, s2: State, s3: State, events: seq<Event>)
    requires |events| == 4
    requires Step(c, s, events[0]) == s1 && Step(c, s1, events[1]) == s2 && Step(c, s2, events[2]) == s3
    ensures Run(c, s, events) == Step(c, s3, events[3])
  {
    hide Step;
    assert events == [events[0]] + ([events[1]] + ([events[2]] + [events[3]]));
    RunFirst(c, s, events[0], [events[1]] + ([events[2]] + [events[3]]));
    RunFirst(c, s1, events[1], [events[2]] + [events[3]]);
    RunFirst(c, s2, events[2], [events[3]]);
    RunOne(c, s3, events[3]);
  }

  // ---- Starting over ----

  /** `n` boots that each ask for a retry, from count `k` on. */
  function RetryCycles(k: nat, n: nat): seq<Event>
    decreases n
  {
    if n == 0 then [] else RetryCycle(k == 0) + RetryCycles(k + 1, n - 1)
  }

  /** The last retry fails, and the crash comes between the two effects of FinishRecovery. */
  function Lapse(): seq<Event> { [Boot, WriteBack] + [BeginInstall, EndInstall(Error, false), ClearMessage, Crash] }

  function Rerun(lapses: nat): seq<Event> {
    if lapses == 0 then RetryCycles(0, RETRY_LIMIT)
    else RetryCycles(0, RETRY_LIMIT) + (Lapse() + Rerun(lapses - 1))
  }

  lemma CycleStep(c: Config, base: seq<string>, s: State, k: nat)
    requires Fresh(c, base) && Installable(base) && k < RETRY_LIMIT
    requires s.phase.Off? && Next(c, s) == Message(c, base, k)
    ensures var t := Run(c, s, RetryCycle(k == 0));
            && t.phase == Off && t.command == s.command && Next(c, t) == Message(c, base, k + 1)
            && t.tally == s.tally.(installs := s.tally.installs + 1, retries := s.tally.retries + 1)
  {
    hide Run, Step, RetryCycle, CommandOf, OptionsOf, Update;
    hide Lines, RetryOptions, Gathered, ReasonOf, Message, Fits, Clean;
    MessageMeaning(c, base, k);
    MessageMeaning(c, base, k + 1);
    NothingToInstall();
    var b := CycleRuns(c, s, Message(c, base, k));
    NextMessage(c, base, k);
    MessagesPersist(c, base, k + 1, RETRY_LIMIT, b);
    NextOptions(c, Run(c, s, RetryCycle(k == 0)));
  }

  lemma {:induction false} CyclesRun(c: Config, base: seq<string>, s: State, k: nat, n: nat)
    requires Fresh(c, base) && Installable(base) && k + n <= RETRY_LIMIT
    requires s.phase.Off? && Next(c, s) == Message(c, base, k)
    ensures var t := Run(c, s, RetryCycles(k, n));
            && t.phase == Off && t.command == s.command && Next(c, t) == Message(c, base, k + n)
            && t.tally == s.tally.(installs := s.tally.installs + n, retries := s.tally.retries + n)
    decreases n
  {
    hide Step, RetryCycle, NextArgs, Fresh, Message;
    if n != 0 {
      CycleStep(c, base, s, k);
      CyclesRun(c, base, Run(c, s, RetryCycle(k == 0)), k + 1, n - 1);
      RunAppend(c, s, RetryCycle(k == 0), RetryCycles(k + 1, n - 1));
    }
  }

  lemma LapseRuns(c: Config, base: seq<string>, s: State)
    requires Fresh(c, base) && Installable(base)
    requires s.phase.Off? && Next(c, s) == Message(c, base, RETRY_LIMIT)
    requires Held(c, base, s)
    ensures var t := Run(c, s, Lapse());
            && t.phase == Off && t.command == s.command && Next(c, t) == base
            && t.tally == s.tally.(installs := s.tally.installs + 1, crashes := s.tally.crashes + 1,
                                   lapses := s.tally.lapses + 1)
  {
    hide CommandOf, Mountable, OptionsOf, Update, Lines, RetryOptions, Gathered, ReasonOf, Message;
    var o := Message(c, base, RETRY_LIMIT);
    MessageMeaning(c, base, RETRY_LIMIT);
    NothingToInstall();
    BootsInto(c, s, o);
    var s1 := Run(c, s, [Boot, WriteBack]);
    RunAppend(c, s, [Boot, WriteBack], [BeginInstall, EndInstall(Error, false), ClearMessage, Crash]);
    var t1 := s.tally.(installs := s.tally.installs + 1);
    var s2 := State(s1.bcb, s.command, Installing(o), t1);
    assert Step(c, s1, BeginInstall) == s2;
    var s3 := State(s1.bcb, s.command, Clearing(o, ToReturn(false)), t1);
    assert Step(c, s2, EndInstall(Error, false)) == s3;
    var s4 := State(Zeroed(), s.command, Unlinking(o, ToReturn(false)), t1);
    assert Step(c, s3, ClearMessage) == s4;
    FourSteps(c, s1, s2, s3, s4, [BeginInstall, EndInstall(Error, false), ClearMessage, Crash]);
    ZeroedOptions();
    NextOptions(c, Run(c, s, Lapse()));
  }

  /**
   The bound is exact for every number of lapses: with the update in the command file, there is
   a run with that many lapses, no re-entry, and four retry reboots for each start. It needs
   one more thing from outside: after each lapse the BCB is clear, and the device has to be
   forced into recovery while the command file still exists. Left alone, it would start the
   main system.
   */
  lemma {:induction false} LapsesRestartTheUpdate(c: Config, base: seq<string>, s: State, lapses: nat)
    requires Fresh(c, base) && Installable(base)
    requires s.phase.Off? && Next(c, s) == base
    requires Held(c, base, s)
    ensures var t := Run(c, s, Rerun(lapses)).tally;
            && t.lapses == s.tally.lapses + lapses
            && t.reentries == s.tally.reentries && t.failures == s.tally.failures
            && t.retries == s.tally.retries + 4 * (1 + lapses)
    decreases lapses
  {
    hide Step, RetryCycle, CommandOf, Mountable, OptionsOf, Update, Lines, RetryOptions, Gathered, ReasonOf;
    CyclesRun(c, base, s, 0, RETRY_LIMIT);
    if lapses != 0 {
      var t := Run(c, s, RetryCycles(0, RETRY_LIMIT));
      LapseRuns(c, base, t);
      var u := Run(c, t, Lapse());
      LapsesRestartTheUpdate(c, base, u, lapses - 1);
      RunAppend(c, t, Lapse(), Rerun(lapses - 1));
      RunAppend(c, s, RetryCycles(0, RETRY_LIMIT), Lapse() + Rerun(lapses - 1));
    }
  }

  /**
   For every fresh update that counts: whatever happens, there are at most four retry reboots
   and one for each failure, if and only if the command file does not hold the update.
   */
  lemma FourRetriesInAllRunsIff(c: Config, base: seq<string>, s: State)
    requires Fresh(c, base) && Installable(base) && Waiting(c, base, s)
    ensures (forall events: seq<Event> ::
               var t := Run(c, s, events).tally; t.retries <= RETRY_LIMIT + t.failures) <==> !Held(c, base, s)
  {
    hide Run, Fresh, Waiting, Installable, Held;
    if Held(c, base, s) {
      WaitingIsOff(c, base, s);
      LapsesRestartTheUpdate(c, base, s, 1);
      assert RETRY_LIMIT + Run(c, s, Rerun(1)).tally.failures < Run(c, s, Rerun(1)).tally.retries;
    } else {
      forall events: seq<Event>
        ensures var t := Run(c, s, events).tally; t.retries <= RETRY_LIMIT + t.failures
      {
        RetriesAreBounded(c, base, s, events);
      }
    }
  }

  lemma WaitingIsOff(c: Config, base: seq<string>, s: State)
    requires Waiting(c, base, s)
    ensures s.phase.Off? && s.tally == NOTHING_YET && Next(c, s) == base
  {
  }

  // ---- Failing writes ----

  /** A boot whose install asks for a retry, but whose next count is not stored. */
  const FORGETTING: seq<Event> :=
    [Boot, WriteBack] + [BeginInstall, EndInstall(Retry, false), StoreNextFails, RebootToRecovery]

  function Forgettings(n: nat): seq<Event> { if n == 0 then [] else FORGETTING + Forgettings(n - 1) }

  lemma ForgettingRuns(c: Config, s: State, o: seq<string>)
    requires s.phase.Off? && Next(c, s) == o && o != [] && Installable(o) && 0 < CountOf(o) < RETRY_LIMIT
    ensures Run(c, s, FORGETTING) ==
            State(Update(s.bcb, o), s.command, Off,
                  s.tally.(installs := s.tally.installs + 1, retries := s.tally.retries + 1,
                           failures := s.tally.failures + 1))
  {
    hide CommandOf, Mountable, NextArgs, Update, Run, Next, RetryOptions;
    BootsInto(c, s, o);
    var tail := [BeginInstall, EndInstall(Retry, false), StoreNextFails, RebootToRecovery];
    RunAppend(c, s, [Boot, WriteBack], tail);
    var s0 := Run(c, s, [Boot, WriteBack]);
    var t := s.tally.(installs := s.tally.installs + 1);
    var s1 := State(s0.bcb, s.command, Installing(o), t);
    assert Step(c, s0, BeginInstall) == s1;
    var s2 := State(s0.bcb, s.command, Retrying(o), t);
    assert Step(c, s1, EndInstall(Retry, false)) == s2;
    var s3 := State(s0.bcb, s.command, Restarting, Failed(t));
    assert Step(c, s2, StoreNextFails) == s3;
    FourSteps(c, s0, s1, s2, s3, tail);
  }

  lemma {:induction false} ForgettingsRun(c: Config, base: seq<string>, s: State, n: nat)
    requires Fresh(c, base) && Installable(base) && s.phase.Off? && Next(c, s) == Message(c, base, 1)
    ensures var t := Run(c, s, Forgettings(n));
            && t.phase.Off? && Next(c, t) == Message(c, base, 1)
            && t.tally == s.tally.(installs := s.tally.installs + n, retries := s.tally.retries + n,
                                   failures := s.tally.failures + n)
    decreases n
  {
    hide CommandOf, Mountable, NextArgs, Update, Run, Next, Message, Fits, Clean;
    if n == 0 {
      assert Run(c, s, []) == s by { RunNothing(c, s); }
    } else {
      MessageMeaning(c, base, 1);
      NothingToInstall();
      var o := Message(c, base, 1);
      ForgettingRuns(c, s, o);
      var u := Run(c, s, FORGETTING);
      MessagesPersist(c, base, 1, RETRY_LIMIT, s.bcb);
      NextOptions(c, u);
      ForgettingsRun(c, base, u, n - 1);
      RunAppend(c, s, FORGETTING, Forgettings(n - 1));
    }
  }

  lemma RunNothing(c: Config, s: State)
    ensures Run(c, s, []) == s
  {
  }

  /**
   The bounds are exact for every number of failing writes: a count that is not stored leaves the
   update where it was, and it is retried once more.
   */
  lemma FailedStoresRepeat(c: Config, base: seq<string>, s: State, n: nat)
    requires Fresh(c, base) && Installable(base) && Waiting(c, base, s)
    ensures Run(c, s, RetryCycles(0, 1) + (Forgettings(n) + RetryCycles(1, 3))).tally == Tally(4 + n, 4 + n, 0, 0, 0, n)
  {
    hide Run, RetryCycles, Forgettings, Message, Next, Installable, Untried, Counting, Waiting;
    WaitingIsOff(c, base, s);
    FirstMessage(c, base);
    CyclesRun(c, base, s, 0, 1);
    var t := Run(c, s, RetryCycles(0, 1));
    ForgettingsRun(c, base, t, n);
    var u := Run(c, t, Forgettings(n));
    CyclesRun(c, base, u, 1, 3);
    RunAppend(c, t, Forgettings(n), RetryCycles(1, 3));
    RunAppend(c, s, RetryCycles(0, 1), Forgettings(n) + RetryCycles(1, 3));
  }

  // ---- Second calls of start_recovery ----

  /** The install fails with the menu on. */
  const INTO_MENU: seq<Event> := [BeginInstall, EndInstall(Error, true), ClearMessage, UnlinkCommand]

  /** The user goes to another mode and comes back. */
  const OUT_OF_MENU: seq<Event> := [MenuLeave, ClearMessage, UnlinkCommand, ReEnter]

  function ReEntries(n: nat): seq<Event> {
    if n == 0 then [BeginInstall] else INTO_MENU + (OUT_OF_MENU + ReEntries(n - 1))
  }

  /** What is left of the BCB and the command file once FinishRecovery is through. */
  function Finished(c: Config, s: State, phase: Phase, t: Tally): State {
    State(Zeroed(), if c.hasCache then None else s.command, phase, t)
  }

  lemma IntoMenuRuns(c: Config, s: State, o: seq<string>)
    requires s.phase == Started(o) && Installable(o) && CountOf(o) != 0
    ensures Run(c, s, INTO_MENU) ==
            Finished(c, s, Menu(o, Warned(o)), s.tally.(installs := s.tally.installs + 1))
  {
    hide CommandOf, Mountable, ReasonOf, Run, Zeroed;
    var w, t := Warned(o), s.tally.(installs := s.tally.installs + 1);
    var s1 := State(s.bcb, s.command, Installing(o), t);
    assert Step(c, s, BeginInstall) == s1;
    var s2 := State(s.bcb, s.command, Clearing(o, ToMenu(w)), t);
    assert Step(c, s1, EndInstall(Error, true)) == s2;
    var s3 := State(Zeroed(), s.command, Unlinking(o, ToMenu(w)), t);
    assert Step(c, s2, ClearMessage) == s3;
    FourSteps(c, s, s1, s2, s3, INTO_MENU);
  }

  lemma OutOfMenuRuns(c: Config, s: State, o: seq<string>, w: bool)
    requires s.phase == Menu(o, w)
    ensures Run(c, s, OUT_OF_MENU) == Finished(c, s, Started(o), s.tally.(reentries := s.tally.reentries + 1))
  {
    hide CommandOf, ReasonOf, Run, Zeroed;
    var s1 := State(s.bcb, s.command, Clearing(o, ToReturn(true)), s.tally);
    assert Step(c, s, MenuLeave) == s1;
    var s2 := State(Zeroed(), s.command, Unlinking(o, ToReturn(true)), s.tally);
    assert Step(c, s1, ClearMessage) == s2;
    var s3 := Finished(c, s, Returned(o, true), s.tally);
    assert Step(c, s2, UnlinkCommand) == s3;
    FourSteps(c, s, s1, s2, s3, OUT_OF_MENU);
  }

  lemma {:induction false} ReEntriesRun(c: Config, s: State, o: seq<string>, n: nat)
    requires s.phase == Started(o) && Installable(o) && CountOf(o) != 0
    ensures var t := Run(c, s, ReEntries(n)).tally;
            t == s.tally.(installs := s.tally.installs + n + 1, reentries := s.tally.reentries + n)
    decreases n
  {
    hide CommandOf, Mountable, Run;
    if n == 0 {
      RunOne(c, s, BeginInstall);
    } else {
      IntoMenuRuns(c, s, o);
      var m := Run(c, s, INTO_MENU);
      OutOfMenuRuns(c, m, o, Warned(o));
      ReEntriesRun(c, Run(c, m, OUT_OF_MENU), o, n - 1);
      RunAppend(c, m, OUT_OF_MENU, ReEntries(n - 1));
      RunAppend(c, s, INTO_MENU, OUT_OF_MENU + ReEntries(n - 1));
    }
  }

  /**
   The bound on installs is exact for every number of second calls: each of them installs the
   package again, but none of them brings back a retry reboot.
   */
  lemma ReEntriesInstallAgain(c: Config, base: seq<string>, s: State, n: nat)
    requires Fresh(c, base) && Installable(base) && Waiting(c, base, s)
    ensures var t := Run(c, s, RetryCycles(0, RETRY_LIMIT) + ([Boot, WriteBack] + ReEntries(n))).tally;
            t == Tally(5 + n, 4, 0, 0, n, 0)
  {
    hide Run, RetryCycles, ReEntries, CommandOf, Mountable, Message, Next, Fits, Clean;
    WaitingIsOff(c, base, s);
    assert Message(c, base, 0) == base by { FirstMessage(c, base); }
    CyclesRun(c, base, s, 0, RETRY_LIMIT);
    var t := Run(c, s, RetryCycles(0, RETRY_LIMIT));
    var o := Message(c, base, RETRY_LIMIT);
    MessageMeaning(c, base, RETRY_LIMIT);
    NothingToInstall();
    BootsInto(c, t, o);
    var u := Run(c, t, [Boot, WriteBack]);
    ReEntriesRun(c, u, o, n);
    RunAppend(c, t, [Boot, WriteBack], ReEntries(n));
    RunAppend(c, s, RetryCycles(0, RETRY_LIMIT), [Boot, WriteBack] + ReEntries(n));
  }

  lemma FirstMessage(c: Config, base: seq<string>)
    ensures Message(c, base, 0) == base
  {
  }
}
