/**
 start_recovery as a state machine whose atomic steps are the writes to the BCB, the removal
 of the command file, the start and the end of an install, and a crash between any two.
 Every boot runs get_args with a bare command line.
 */
module Recovery {
  import opened Common
  import opened BootMessage
  import opened Options
  import opened RecoveryMain

  const RETRY_LIMIT: nat := 4

  // ---- set_retry_bootloader_message ----

  const RETRY_PREFIX: string := "--retry_count"

  function Kept(args: seq<string>): seq<string> {
    if args == [] then [] else (if StartsWith(args[0], RETRY_PREFIX) then [] else [args[0]]) + Kept(args[1..])
  }

  function RetryOptions(args: seq<string>, count: nat): seq<string> { Kept(args) + [RetryToken(count)] }

  /** Only the tokens that start with the name of the count are dropped. */
  lemma {:induction false} KeptIff(args: seq<string>, token: string)
    ensures multiset(Kept(args))[token] == if StartsWith(token, "--retry_count") then 0 else multiset(args)[token]
  {
    if args != [] {
      KeptIff(args[1..], token);
      assert args == [args[0]] + args[1..];
      assert [args[0]] + Kept(args[1..]) == Kept(args) || Kept(args[1..]) == Kept(args);
    }
  }

  method SetRetryBootloaderMessage(misc: Misc, count: nat, args: seq<string>)
    modifies misc`bcb
    ensures misc.bcb == if misc.readable && misc.writable then Update(old(misc.bcb), RetryOptions(args, count))
                        else old(misc.bcb)
  {
    var options: seq<string> := [];
    var i := 0;
    while i < |args|
      invariant 0 <= i <= |args|
      invariant options + Kept(args[i..]) == Kept(args)
    {
      assert args[i..][1..] == args[i + 1..];
      if !StartsWith(args[i], RETRY_PREFIX) {
        options := options + [args[i]];
      }
      i := i + 1;
    }
    assert args[i..] == [] && options == Kept(args);
    var ok := misc.UpdateMessage(options + [RetryToken(count)]);
  }

  // ---- The protocol ----

  datatype Status = Success | Error | Corrupt | NoCommand | Skipped | Retry | KeyInterrupted | RebootNow

  datatype Config = Config(argv0: string, hasCache: bool)

  /**
   Where FinishRecovery was called from: the top of the menu loop, or the end of start_recovery,
   which the menu was left for or not.
   */
  datatype After = ToMenu(warned: bool) | ToReturn(fromMenu: bool)

  /** `options` is the command line of the running boot, without argv[0]. */
  datatype Phase =
    | Off
    | Collected(options: seq<string>)
    | Started(options: seq<string>)
    | Armed(options: seq<string>)
    | Installing(options: seq<string>)
    | Retrying(options: seq<string>)
    | Restarting
    | Clearing(options: seq<string>, after: After)
    | Unlinking(options: seq<string>, after: After)
    | Menu(options: seq<string>, warned: bool)
    | MenuInstall(options: seq<string>)
    | Returned(options: seq<string>, fromMenu: bool)

  /**
   `lapses` counts how often the command file outlived FinishRecovery, because of a crash
   between its two effects or because it could not be removed. `failures` counts all writes
   to the BCB and removals of the file that fail; the code only logs them.
   */
  datatype Tally = Tally(
    installs: nat, retries: nat, crashes: nat, lapses: nat, reentries: nat, failures: nat)

  datatype State = State(bcb: Block, command: Option<string>, phase: Phase, tally: Tally)

  datatype Event =
    | Crash
    | Boot
    | WriteBack
    | WriteBackFails
    | SkipUpdate(visible: bool)
    | StoreFirstCount
    | StoreFirstFails
    | MountFails(visible: bool)
    | BeginInstall
    | EndInstall(status: Status, visible: bool)
    | StoreNextCount
    | StoreNextFails
    | RebootToRecovery
    | RunCommand(status: Status, visible: bool)
    | ClearMessage
    | ClearFails
    | UnlinkCommand
    | UnlinkFails
    | MenuBeginInstall
    | MenuWriteFails
    | MenuEndInstall(status: Status, visible: bool)
    | MenuOther
    | MenuLeave
    | PowerOff
    | RebootToRescue
    | ReEnter

  function CommandFile(c: Config, s: State): Option<string> { if c.hasCache then s.command else None }

  function NextArgs(c: Config, s: State): (args: seq<string>)
    ensures args != []
  {
    Gathered([c.argv0], s.bcb, CommandFile(c, s))
  }

  predicate HasUpdate(options: seq<string>) { CommandOf(options).updatePackage.Some? }

  function CountOf(options: seq<string>): nat { CommandOf(options).retryCount }

  /** An absolute path without empty, "." and ".." components, as std::filesystem::canonical gives. */
  predicate IsCanonical(path: string) {
    && path != "" && path[0] == '/'
    && (path == "/" || forall p | p in Split(path[1..], '/') :: p !in ["", ".", ".."])
  }

  type CanonicalPath = p: string | IsCanonical(p) witness "/"

  /** The package paths that SetupPackageMount accepts on some device: block maps and canonical paths. */
  predicate Mountable(path: string) { path != "" && (path[0] == '@' || IsCanonical(path)) }

  /** An update whose package can be accepted. */
  predicate Installable(options: seq<string>) {
    HasUpdate(options) && Mountable(CommandOf(options).updatePackage.value)
  }

  predicate Warned(options: seq<string>) { ReasonOf(options) == IN_PROGRESS }

  /** The end of start_recovery: the menu is shown without a command or when text is visible. */
  function Settle(options: seq<string>, status: Status, visible: bool): Phase {
    Clearing(options, if status != RebootNow && (status == NoCommand || visible) then ToMenu(Warned(options))
                      else ToReturn(false))
  }

  function InProgressOptions(): seq<string> { [ReasonToken(IN_PROGRESS)] }

  function Crashed(s: State): State {
    var t := s.tally.(crashes := s.tally.crashes + 1);
    State(s.bcb, s.command, Off, if s.phase.Unlinking? then t.(lapses := t.lapses + 1) else t)
  }

  /** A write or a removal that did not happen. */
  function Failed(t: Tally): Tally { t.(failures := t.failures + 1) }

  function InstallBegun(s: State): State
    requires s.phase.Started? || s.phase.Armed?
  {
    s.(phase := Installing(s.phase.options), tally := s.tally.(installs := s.tally.installs + 1))
  }

  /**
   get_args: the command line is collected and then written back. The device may boot into
   recovery because the BCB says so or because it is forced to, even when the BCB is clear.
   */
  function BootStep(c: Config, s: State, e: Event): State
    requires s.phase.Off? || s.phase.Collected?
  {
    if s.phase.Off? && e.Boot? then s.(phase := Collected(NextArgs(c, s)[1..]))
    else if s.phase.Collected? && e.WriteBack? then
      var o := s.phase.options;
      s.(bcb := Update(s.bcb, o), phase := Started(WithBootMode([c.argv0] + o, s.bcb)[1..]))
    else if s.phase.Collected? && e.WriteBackFails? then
      s.(phase := Started(WithBootMode([c.argv0] + s.phase.options, s.bcb)[1..]), tally := Failed(s.tally))
    else s
  }

  /** The branch start_recovery takes: the update package goes before every other command. */
  function StartStep(c: Config, s: State, e: Event): State
    requires s.phase.Started?
  {
    var o := s.phase.options;
    if !HasUpdate(o) then (if e.RunCommand? then s.(phase := Settle(o, e.status, e.visible)) else s)
    else if CountOf(o) == 0 then
      if e.SkipUpdate? then s.(phase := Settle(o, Skipped, e.visible))  // low battery or boot reason
      else if e.StoreFirstCount? then s.(bcb := Update(s.bcb, RetryOptions([c.argv0] + o, 1)), phase := Armed(o))
      else if e.StoreFirstFails? then s.(phase := Armed(o), tally := Failed(s.tally))
      else s
    else if e.MountFails? then s.(phase := Settle(o, Error, e.visible))
    else if e.BeginInstall? && Installable(o) then InstallBegun(s)
    else s
  }

  function InstallStep(c: Config, s: State, e: Event): State
    requires s.phase.Armed? || s.phase.Installing? || s.phase.Retrying? || s.phase.Restarting?
  {
    match s.phase
    case Armed(o) =>
      if e.MountFails? then s.(phase := Settle(o, Error, e.visible))
      else if e.BeginInstall? && Installable(o) then InstallBegun(s)
      else s
    case Installing(o) =>
      if !e.EndInstall? then s
      else if e.status == Retry && CountOf(o) < RETRY_LIMIT then s.(phase := Retrying(o))
      else s.(phase := Settle(o, e.status, e.visible))
    case Retrying(o) =>
      if e.StoreNextCount?
      then s.(bcb := Update(s.bcb, RetryOptions([c.argv0] + o, CountOf(o) + 1)), phase := Restarting)
      else if e.StoreNextFails? then s.(phase := Restarting, tally := Failed(s.tally))
      else s
    case Restarting =>
      if e.RebootToRecovery? then s.(phase := Off, tally := s.tally.(retries := s.tally.retries + 1)) else s
  }

  /** Where FinishRecovery returns to. */
  function PhaseAfter(o: seq<string>, after: After): Phase {
    match after
    case ToMenu(warned) => Menu(o, warned)
    case ToReturn(fromMenu) => Returned(o, fromMenu)
  }

  /** FinishRecovery: the BCB is cleared first and the command file is removed after that. */
  function FinishStep(c: Config, s: State, e: Event): State
    requires s.phase.Clearing? || s.phase.Unlinking?
  {
    match s.phase
    case Clearing(o, after) =>
      if e.ClearMessage? then s.(bcb := Zeroed(), phase := Unlinking(o, after))
      else if e.ClearFails? then s.(phase := Unlinking(o, after), tally := Failed(s.tally))
      else s
    case Unlinking(o, after) =>
      if e.UnlinkCommand?
      then s.(command := if c.hasCache then None else s.command,
              phase := PhaseAfter(o, after))
      else if e.UnlinkFails? && c.hasCache
      then s.(phase := PhaseAfter(o, after), tally := Failed(s.tally).(lapses := s.tally.lapses + 1))
      else s
  }

  /** An install from the menu returns to the menu, unless it leaves nothing to show there. */
  function AfterInstall(status: Status, visible: bool): After {
    if status == RebootNow || (status == Success && !visible) then ToReturn(true) else ToMenu(status != Success)
  }

  /** What main writes before it reboots into rescue mode. */
  function RescueMessage(): Block { Zeroed().(command := Field("boot-rescue", COMMAND_SIZE)) }

  /**
   After start_recovery has returned, main reboots or shuts down. It does something else only
   if the menu, or a sideload, has asked for it: it enters start_recovery again, perhaps after
   fastboot mode or a failed write, or reboots into rescue mode.
   */
  function MenuStep(c: Config, s: State, e: Event): State
    requires s.phase.Menu? || s.phase.MenuInstall? || s.phase.Returned?
  {
    match s.phase
    case Menu(o, warned) =>
      if e.MenuBeginInstall? then s.(bcb := Update(s.bcb, InProgressOptions()), phase := MenuInstall(o))
      else if e.MenuWriteFails? then s.(phase := MenuInstall(o), tally := Failed(s.tally))
      else if e.MenuOther? then s.(phase := Clearing(o, ToMenu(warned)))
      else if e.MenuLeave? then s.(phase := Clearing(o, ToReturn(true)))
      else s
    case MenuInstall(o) =>
      if e.MenuEndInstall?
      then s.(phase := Clearing(o, AfterInstall(e.status, e.visible)))
      else s
    case Returned(o, fromMenu) =>
      if e.PowerOff? then s.(phase := Off)
      else if HasUpdate(o) && !fromMenu then s
      else if e.RebootToRescue? then s.(bcb := RescueMessage(), phase := Off)
      else if e.ReEnter? then s.(phase := Started(o), tally := s.tally.(reentries := s.tally.reentries + 1))
      else s
  }

  /** One step; an event that cannot happen in the current phase changes nothing. */
  function Step(c: Config, s: State, e: Event): State {
    if e.Crash? then (if s.phase.Off? then s else Crashed(s))
    else
      match s.phase
      case Off | Collected(_) => BootStep(c, s, e)
      case Started(_) => StartStep(c, s, e)
      case Armed(_) | Installing(_) | Retrying(_) | Restarting => InstallStep(c, s, e)
      case Clearing(_, _) | Unlinking(_, _) => FinishStep(c, s, e)
      case Menu(_, _) | MenuInstall(_) | Returned(_, _) => MenuStep(c, s, e)
  }

  function Run(c: Config, s: State, events: seq<Event>): State {
    if events == [] then s else Step(c, Run(c, s, events[..|events| - 1]), events[|events| - 1])
  }

  lemma {:induction false} RunAppend(c: Config, s: State, a: seq<Event>, b: seq<Event>)
    ensures Run(c, s, a + b) == Run(c, Run(c, s, a), b)
  {
    if b == [] {
      assert a + b == a;
    } else {
      assert (a + b)[..|a + b| - 1] == a + b[..|b| - 1];
      RunAppend(c, s, a, b[..|b| - 1]);
    }
  }

  lemma RunOne(c: Config, s: State, e: Event)
    ensures Run(c, s, [e]) == Step(c, s, e)
  {
    assert [e][..0] == [];
  }

  lemma {:induction false} RunFirst(c: Config, s: State, e: Event, rest: seq<Event>)
    ensures Run(c, s, [e] + rest) == Run(c, Step(c, s, e), rest)
  {
    RunOne(c, s, e);
    RunAppend(c, s, [e], rest);
  }

  // ---- What a boot leaves behind ----

  /** What holds as long as there are no more than `f` failures. */
  predicate Tidy(c: Config, s: State, f: nat) {
    s.tally.failures <= f ==>
      match s.phase
      case Unlinking(_, _) => s.bcb == Zeroed()
      case Menu(_, _) => s.bcb == Zeroed() && CommandFile(c, s) == None
      case MenuInstall(_) => s.bcb == Update(Zeroed(), InProgressOptions()) && CommandFile(c, s) == None
      case Returned(_, _) => s.bcb == Zeroed() && CommandFile(c, s) == None
      case _ => true
  }

  lemma FinishKeepsTidy(c: Config, s: State, e: Event, f: nat)
    requires Tidy(c, s, f) && s.tally.failures <= f && (s.phase.Clearing? || s.phase.Unlinking?)
    requires FinishStep(c, s, e).tally.failures <= s.tally.failures
    ensures Tidy(c, FinishStep(c, s, e), f)
  {
  }

  lemma MenuKeepsTidy(c: Config, s: State, e: Event, f: nat)
    requires Tidy(c, s, f) && s.tally.failures <= f && (s.phase.Menu? || s.phase.MenuInstall? || s.phase.Returned?)
    requires MenuStep(c, s, e).tally.failures <= s.tally.failures
    ensures Tidy(c, MenuStep(c, s, e), f)
  {
    hide HasUpdate;
  }

  lemma FailuresGrow(c: Config, s: State, e: Event)
    ensures s.tally.failures <= Step(c, s, e).tally.failures
    ensures s.tally.lapses <= Step(c, s, e).tally.lapses
  {
    hide Settle, RescueMessage, HasUpdate, CountOf, Installable, Update, NextArgs, Zeroed, RetryOptions, WithBootMode;
  }

  /** Before FinishRecovery, no step leads behind it. */
  lemma EarlySteps(c: Config, s: State, e: Event)
    requires s.phase.Off? || s.phase.Collected? || s.phase.Started? || s.phase.Armed? || s.phase.Installing?
             || s.phase.Retrying? || s.phase.Restarting?
    ensures var p := Step(c, s, e).phase; !p.Unlinking? && !p.Menu? && !p.MenuInstall? && !p.Returned?
  {
    hide Update, NextArgs, HasUpdate, CountOf, Installable, RetryOptions, WithBootMode, Warned;
  }

  lemma StepKeepsTidy(c: Config, s: State, e: Event, f: nat)
    requires Tidy(c, s, f) && Step(c, s, e).tally.failures == s.tally.failures <= f
    ensures Tidy(c, Step(c, s, e), f)
  {
    hide FinishStep, MenuStep, StartStep, InstallStep, BootStep, Zeroed, Update;
    match s.phase
    case Clearing(_, _) | Unlinking(_, _) => if !e.Crash? { FinishKeepsTidy(c, s, e, f); }
    case Menu(_, _) | MenuInstall(_) | Returned(_, _) => if !e.Crash? { MenuKeepsTidy(c, s, e, f); }
    case _ => EarlySteps(c, s, e);
  }

  lemma RunLast(c: Config, s: State, events: seq<Event>)
    requires events != []
    ensures Run(c, s, events) == Step(c, Run(c, s, events[..|events| - 1]), events[|events| - 1])
    ensures Run(c, s, events[..|events| - 1]).tally.failures <= Run(c, s, events).tally.failures
    ensures Run(c, s, events[..|events| - 1]).tally.lapses <= Run(c, s, events).tally.lapses
  {
    hide Step;
    FailuresGrow(c, Run(c, s, events[..|events| - 1]), events[|events| - 1]);
  }

  lemma {:induction false} RunsAreTidy(c: Config, s: State, events: seq<Event>)
    requires s.phase.Off? && Run(c, s, events).tally.failures == s.tally.failures
    ensures Tidy(c, Run(c, s, events), s.tally.failures)
  {
    hide Step, Tidy;
    if events != [] {
      RunLast(c, s, events);
      FailuresOverRun(c, s, events[..|events| - 1]);
      RunsAreTidy(c, s, events[..|events| - 1]);
      StepKeepsTidy(c, Run(c, s, events[..|events| - 1]), events[|events| - 1], s.tally.failures);
    } else {
      OffIsTidy(c, s);
    }
  }

  lemma OffIsTidy(c: Config, s: State)
    requires s.phase.Off?
    ensures Tidy(c, s, s.tally.failures)
  {
  }

  lemma {:induction false} FailuresOverRun(c: Config, s: State, events: seq<Event>)
    ensures s.tally.failures <= Run(c, s, events).tally.failures
  {
    hide Step;
    if events != [] {
      RunLast(c, s, events);
      FailuresOverRun(c, s, events[..|events| - 1]);
    }
  }

  lemma ZeroedOptions()
    ensures OptionsOf(Zeroed()) == []
  {
    ZeroedHasNoOptions(Zeroed());
  }

  /**
   From any BCB and any command file, whenever start_recovery returns, the BCB is clear and
   the command file is gone, so the next bare boot finds no argument, unless a write has failed.
   */
  lemma ReturnsClean(c: Config, s: State, events: seq<Event>)
    requires s.phase.Off? && Run(c, s, events).phase.Returned?
    requires Run(c, s, events).tally.failures == s.tally.failures
    ensures var t := Run(c, s, events);
            && t.bcb == Zeroed() && (c.hasCache ==> t.command == None)
            && NextArgs(c, t) == [c.argv0]
            && WithBootMode(NextArgs(c, t), t.bcb) == [c.argv0]
  {
    RunsAreTidy(c, s, events);
    ZeroedOptions();
    assert CString(Zeroed().command) == "";
  }

  lemma InProgressBoot(c: Config, s: State)
    requires !s.phase.Off? && s.bcb == Update(Zeroed(), InProgressOptions())
    ensures OptionsOf(s.bcb) == InProgressOptions() && Warned(InProgressOptions())
    ensures Step(c, Step(c, Step(c, s, Crash), Boot), WriteBack).phase == Started(InProgressOptions())
  {
    hide Update, OptionsOf, ReasonOf;
    InProgressPersists(Zeroed());
    ReasonTokenMeaning(IN_PROGRESS);
    var o := InProgressOptions();
    assert ([c.argv0] + o)[1..] == o;
    assert Step(c, Step(c, s, Crash), Boot).phase == Collected(o);
  }

  /** A crash during an install started from the menu leads to a boot that shows the warning. */
  lemma MenuInstallCrashWarns(c: Config, s: State, events: seq<Event>)
    requires s.phase.Off? && Run(c, s, events).phase.MenuInstall?
    requires Run(c, s, events).tally.failures == s.tally.failures
    ensures var t := Run(c, s, events);
            && OptionsOf(t.bcb) == InProgressOptions()
            && var u := Step(c, Step(c, Step(c, t, Crash), Boot), WriteBack);
            && u.phase == Started(InProgressOptions())
            && Step(c, u, RunCommand(NoCommand, false)).phase == Clearing(InProgressOptions(), ToMenu(true))
  {
    hide Update, OptionsOf, ReasonOf, CommandOf, BootStep, NextArgs;
    RunsAreTidy(c, s, events);
    InProgressBoot(c, Run(c, s, events));
    ReasonTokenMeaning(IN_PROGRESS);
  }

  lemma InProgressPersists(b: Block)
    ensures OptionsOf(Update(b, InProgressOptions())) == InProgressOptions()
  {
    var token := ReasonToken(IN_PROGRESS);
    assert |token| == 27 && CleanLine(token);
    BodyWeight([token]);
    ReadBack(b, [token]);
  }

  lemma RescueHasNoOptions()
    ensures OptionsOf(RescueMessage()) == []
  {
    ZeroedHasNoOptions(RescueMessage());
  }

  /** Rescue mode lasts for one boot: its option is added after the BCB was written back. */
  lemma RescueLastsOneBoot(c: Config, s: State)
    requires s.phase.Off? && s.bcb == RescueMessage() && CommandFile(c, s).None?
    ensures var t := Step(c, Step(c, s, Boot), WriteBack);
            && t.phase == Started(["--rescue"])
            && Step(c, Step(c, Step(c, t, Crash), Boot), WriteBack).phase == Started([])
  {
    hide Update, OptionsOf;
    var name := "boot-rescue";
    assert '\0' !in name && RescueMessage().command[..11] == name;
    FindUnique(RescueMessage().command, '\0', 11);
    RescueHasNoOptions();
    var t := Step(c, Step(c, s, Boot), WriteBack);
    NothingPersists(s.bcb);
    BootCommand(s.bcb);
    assert [c.argv0] + [] == [c.argv0] && ([c.argv0] + ["--rescue"])[1..] == ["--rescue"];
    assert t.bcb == Update(s.bcb, []);
  }

  lemma NothingPersists(b: Block)
    ensures OptionsOf(Update(b, [])) == []
  {
    BodyWeight([]);
    ReadBack(b, []);
  }

  lemma BootCommand(b: Block)
    ensures CString(Update(b, []).command) == "boot-recovery"
  {
    var name := "boot-recovery";
    assert '\0' !in name && Update(b, []).command[..13] == name;
    FindUnique(Update(b, []).command, '\0', 13);
  }
}
