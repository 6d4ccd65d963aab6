/**
 start_recovery, PromptAndWait and FinishRecovery as the program runs them. Every method
 leaves the device in a state that the crash-restart protocol reaches by the events it
 returns, so what is proved about all runs of the protocol holds of this code.
 */
module StartRecovery {
  import opened Common
  import opened BootMessage
  import opened Options
  import opened Recovery

  /**
   What the user picks in the menu: a reboot or shutdown, which is confirmed when an update may
   have failed; a switch to another mode, or an interrupting key; a wipe; an install with its
   outcome; or anything else. `visible` is whether text is shown after it.
   */
  datatype Choice =
    | LeaveDevice(visible: bool, confirmed: bool)
    | SwitchMode
    | Wipe(visible: bool)
    | StartInstall(status: Status, visible: bool)
    | Other

  /**
   The answers of the platform and of the user during one call; `canonical` is the package's
   canonical path, `promptStatus` the answer to prompt_and_wipe_data, `adbStatus` that of a sideload.
   */
  datatype Inputs = Inputs(
    batteryOk: bool, bootreasonBlocked: bool, mountOk: bool, canonical: Option<CanonicalPath>,
    installStatus: Status, wipeOk: bool, promptStatus: Status, adbStatus: Status,
    visible: bool, choices: seq<Choice>)

  /** Reboot("recovery") was called, or start_recovery returned to main. */
  datatype Outcome = Rebooting | ReturnedToMain

  // ---- What the inputs decide; the methods below do not use these definitions ----

  /** A fresh update is not installed on a low battery or after a blocked boot reason. */
  ghost predicate Blocked(c: Command, i: Inputs) { c.retryCount == 0 && (!i.batteryOk || i.bootreasonBlocked) }

  ghost predicate Mounts(path: string, i: Inputs) {
    path != "" && i.mountOk && (path[0] == '@' || i.canonical == Some(path))
  }

  ghost predicate Installs(c: Command, i: Inputs) {
    c.updatePackage.Some? && !Blocked(c, i) && Mounts(c.updatePackage.value, i)
  }

  /** The update is tried again after a reboot, at most four times. */
  ghost predicate Retries(c: Command, i: Inputs) { Installs(c, i) && i.installStatus == Retry && c.retryCount < 4 }

  /** The status that the update, or else the first other command in the order of the source, ends with. */
  ghost function FinalStatus(c: Command, i: Inputs): Status {
    if c.updatePackage.Some? then (if Blocked(c, i) then Skipped else if Installs(c, i) then i.installStatus else Error)
    else if c.wipeData then (if i.wipeOk then Success else Error)
    else if c.promptAndWipeData then i.promptStatus
    else if c.wipeCache || c.wipeAb then (if i.wipeOk then Success else Error)
    else if c.sideload then (if c.sideloadAutoReboot then RebootNow else i.adbStatus)
    else if c.rescue then i.adbStatus
    else if c.justExit then Success
    else NoCommand
  }

  /** The menu is shown without a command, or when text is visible and no reboot is asked for. */
  ghost predicate Prompts(c: Command, i: Inputs) {
    FinalStatus(c, i) == NoCommand || (i.visible && FinalStatus(c, i) != RebootNow)
  }

  /** Whether an update may have failed when choice `k` is offered: the last install before it decides. */
  ghost predicate WarnedAt(warn: bool, choices: seq<Choice>, k: nat)
    requires k <= |choices|
  {
    if k == 0 then warn
    else if choices[k - 1].StartInstall? then choices[k - 1].status != Success
    else WarnedAt(warn, choices, k - 1)
  }

  /** The choices that end the menu. */
  ghost predicate Leaves(choice: Choice, warned: bool) {
    match choice
    case SwitchMode => true
    case LeaveDevice(visible, confirmed) => visible && warned ==> confirmed
    case Wipe(visible) => !visible
    case StartInstall(status, visible) => status == RebootNow || (status == Success && !visible)
    case Other => false
  }

  /** The first `taken` choices are those up to the one that ends the menu, or all of them. */
  ghost predicate Taken(warn: bool, choices: seq<Choice>, taken: nat) {
    && taken <= |choices|
    && (forall k | 0 <= k < taken - 1 :: !Leaves(choices[k], WarnedAt(warn, choices, k)))
    && (taken < |choices| ==> 0 < taken && Leaves(choices[taken - 1], WarnedAt(warn, choices, taken - 1)))
  }

  ghost function EndOf(e: Event): seq<Choice> {
    if e.MenuEndInstall? then [StartInstall(e.status, e.visible)] else []
  }

  /** The installs that the menu ran, with their outcomes. */
  ghost function MenuEnds(events: seq<Event>): seq<Choice> {
    if events == [] then [] else MenuEnds(events[..|events| - 1]) + EndOf(events[|events| - 1])
  }

  ghost function InstallsAmong(choices: seq<Choice>): seq<Choice> {
    if choices == [] then [] else
      var last := choices[|choices| - 1];
      InstallsAmong(choices[..|choices| - 1]) + (if last.StartInstall? then [last] else [])
  }

  lemma NoChoices(choices: seq<Choice>)
    ensures InstallsAmong(choices[..0]) == []
  {
  }

  lemma InstallsAmongOneMore(choices: seq<Choice>, k: nat)
    requires k < |choices|
    ensures InstallsAmong(choices[..k + 1]) ==
            InstallsAmong(choices[..k]) + (if choices[k].StartInstall? then [choices[k]] else [])
  {
    assert choices[..k + 1][..k] == choices[..k];
  }

  lemma MenuEndsTwo(a: Event, b: Event)
    ensures MenuEnds([]) == [] && MenuEnds([a]) == EndOf(a) && MenuEnds([a, b]) == EndOf(a) + EndOf(b)
  {
    assert [a][..0] == [] && [a, b][..1] == [a];
    assert MenuEnds([a]) == MenuEnds([]) + EndOf(a);
  }

  lemma {:induction false} MenuEndsAppend(a: seq<Event>, b: seq<Event>)
    ensures MenuEnds(a + b) == MenuEnds(a) + MenuEnds(b)
  {
    if b == [] {
      assert a + b == a;
    } else {
      assert (a + b)[..|a + b| - 1] == a + b[..|b| - 1];
      MenuEndsAppend(a, b[..|b| - 1]);
    }
  }

  lemma InProgressText()
    ensures InProgressOptions() == ["--reason=update_in_progress"] && IN_PROGRESS == "update_in_progress"
  {
    assert ReasonToken(IN_PROGRESS) == "--reason=update_in_progress";
  }

  lemma UpdateTwice(b: Block, first: seq<string>, second: seq<string>)
    ensures Update(Update(b, first), second) == Update(b, second)
  {
  }

  /** SetupPackageMount: the volume has to be mounted, and a path has to be its own canonical form. */
  method SetupPackageMount(path: string, mountOk: bool, canonical: Option<CanonicalPath>) returns (ok: bool)
    ensures ok <==> path != "" && mountOk && (path[0] == '@' || canonical == Some(path))
    ensures ok ==> Mountable(path)
  {
    if path == "" {
      return false;
    }
    if path[0] == '@' {
      return mountOk;
    }
    if !mountOk {
      return false;
    }
    if canonical.None? || canonical.value != path {
      return false;
    }
    return true;
  }

  class Device {
    const config: Config
    const miscWritable: bool  // whether the BCB can be written during this boot
    const cacheWritable: bool  // whether the command file can be removed
    var bcb: Block
    var command: Option<string>
    var tally: Tally
    ghost var phase: Phase

    constructor (c: Config, misc: bool, cache: bool, b: Block, file: Option<string>, o: seq<string>)
      ensures config == c && miscWritable == misc && cacheWritable == cache
      ensures Snapshot() == State(b, file, Started(o), Tally(0, 0, 0, 0, 0, 0))
    {
      config, miscWritable, cacheWritable := c, misc, cache;
      bcb, command, tally, phase := b, file, Tally(0, 0, 0, 0, 0, 0), Started(o);
    }

    predicate NothingFails() { miscWritable && cacheWritable }

    ghost function Snapshot(): State
      reads this
    {
      State(bcb, command, phase, tally)
    }

    /** clear_bootloader_message, whose failure is only logged. */
    method ClearMessage() returns (ghost e: Event)
      requires phase.Clearing?
      modifies this
      ensures Snapshot() == Step(config, old(Snapshot()), e)
      ensures NothingFails() ==> tally.failures == old(tally.failures)
      ensures phase == Unlinking(old(phase).options, old(phase).after)
      ensures tally.installs == old(tally.installs) && !e.MenuEndInstall?
      ensures bcb == (if miscWritable then Zeroed() else old(bcb)) && command == old(command)
    {
      if miscWritable {
        var cleared := Zeroed();
        bcb := cleared;
        e := Event.ClearMessage;
      } else {
        tally := Failed(tally);
        e := ClearFails;
      }
      phase := Unlinking(phase.options, phase.after);
    }

    /** The removal of the command file, whose failure is only logged. */
    method UnlinkCommandFile() returns (ghost e: Event)
      requires phase.Unlinking?
      modifies this
      ensures Snapshot() == Step(config, old(Snapshot()), e)
      ensures NothingFails() ==> tally.failures == old(tally.failures)
      ensures phase == PhaseAfter(old(phase).options, old(phase).after)
      ensures tally.installs == old(tally.installs) && !e.MenuEndInstall?
      ensures bcb == old(bcb) && command == if config.hasCache && cacheWritable then None else old(command)
    {
      e := UnlinkCommand;
      if config.hasCache {
        if cacheWritable {
          command := None;
        } else {
          tally := Failed(tally).(lapses := tally.lapses + 1);
          e := UnlinkFails;
        }
      }
      phase := PhaseAfter(phase.options, phase.after);
    }

    /** Clears the BCB, then removes the command file. */
    method FinishRecovery() returns (ghost events: seq<Event>)
      requires phase.Clearing?
      modifies this
      ensures Snapshot() == Run(config, old(Snapshot()), events)
      ensures NothingFails() ==> tally.failures == old(tally.failures)
      ensures phase == PhaseAfter(old(phase).options, old(phase).after)
      ensures tally.installs == old(tally.installs) && MenuEnds(events) == []
      ensures bcb == if miscWritable then Zeroed() else old(bcb)
      ensures command == if config.hasCache && cacheWritable then None else old(command)
    {
      hide Run, Step, Zeroed;
      ghost var s0 := Snapshot();
      ghost var e1 := ClearMessage();
      ghost var e2 := UnlinkCommandFile();
      RunTwo(config, s0, e1, e2);
      MenuEndsTwo(e1, e2);
      events := [e1, e2];
    }

    /**
     The menu loop. It ends at the first choice that leaves, and a reboot has to be confirmed
     while an update may have failed; every install chosen until then is run once. When the user
     stops choosing, the menu times out and reboots.
     */
    method PromptAndWait(choices: seq<Choice>, warn: bool) returns (taken: nat, ghost events: seq<Event>)
      requires phase.Clearing? && phase.after == ToMenu(warn)
      modifies this
      ensures Snapshot() == Run(config, old(Snapshot()), events)
      ensures NothingFails() ==> tally.failures == old(tally.failures)
      ensures phase == Clearing(old(phase).options, ToReturn(true))
      ensures taken <= |choices| && Taken(warn, choices, taken)
      ensures MenuEnds(events) == InstallsAmong(choices[..taken]) && tally.installs == old(tally.installs)
    {
      hide Run, Step, Zeroed, Update, MenuEnds, InstallsAmong, Leaves;
      ghost var s0, o := Snapshot(), phase.options;
      var updateInProgress := warn;
      taken := 0;
      events := NothingYet();
      NoChoices(choices);
      while taken < |choices|
        invariant 0 <= taken <= |choices| && phase == Clearing(o, ToMenu(updateInProgress))
        invariant Snapshot() == Run(config, s0, events)
        invariant NothingFails() ==> tally.failures == old(tally.failures)
        invariant updateInProgress == WarnedAt(warn, choices, taken)
        invariant forall k | 0 <= k < taken :: !Leaves(choices[k], WarnedAt(warn, choices, k))
        invariant MenuEnds(events) == InstallsAmong(choices[..taken]) && tally.installs == old(tally.installs)
        decreases |choices| - taken
      {
        InstallsAmongOneMore(choices, taken);
        ghost var e := FinishRecovery();
        Appended(s0, events, e);
        events := events + e;
        var leave;
        leave, updateInProgress, e := HandleChoice(choices[taken], updateInProgress);
        Appended(s0, events, e);
        events, taken := events + e, taken + 1;
        if leave {
          return;
        }
      }
      ghost var e := FinishRecovery();
      Appended(s0, events, e);
      events := events + e;
      e := LeaveMenu();
      Appended(s0, events, e);
      events := events + e;
    }

    /** One choice of the menu. */
    method HandleChoice(choice: Choice, warned: bool) returns (leave: bool, warned': bool, ghost events: seq<Event>)
      requires phase.Menu? && phase.warned == warned
      modifies this
      ensures Snapshot() == Run(config, old(Snapshot()), events)
      ensures NothingFails() ==> tally.failures == old(tally.failures)
      ensures leave <==> Leaves(choice, warned)
      ensures warned' == if choice.StartInstall? then choice.status != Success else warned
      ensures phase == Clearing(old(phase).options, if leave then ToReturn(true) else ToMenu(warned'))
      ensures MenuEnds(events) == (if choice.StartInstall? then [choice] else [])
      ensures tally.installs == old(tally.installs)
    {
      hide Run, MenuEnds, Update;
      leave, warned' := false, warned;
      match choice {
        case SwitchMode =>
          leave := true;
        case LeaveDevice(visible, confirmed) =>
          leave := !visible || !warned || confirmed;
        case Wipe(visible) =>
          leave := !visible;
        case Other =>
        case StartInstall(status, visible) =>
          events := InstallFromMenu(status, visible);
          return status == RebootNow || (status == Success && !visible), status != Success, events;
      }
      if leave {
        events := LeaveMenu();
      } else {
        events := StayInMenu();
      }
    }

    ghost method NothingYet() returns (events: seq<Event>)
      ensures Snapshot() == Run(config, Snapshot(), events) && MenuEnds(events) == []
    {
      RunNone(config, Snapshot());
      events := [];
    }

    lemma Appended(s0: State, events: seq<Event>, e: seq<Event>)
      ensures Run(config, s0, events + e) == Run(config, Run(config, s0, events), e)
      ensures MenuEnds(events + e) == MenuEnds(events) + MenuEnds(e)
    {
      RunAppend(config, s0, events, e);
      MenuEndsAppend(events, e);
    }

    ghost method LeaveMenu() returns (events: seq<Event>)
      requires phase.Menu?
      modifies this`phase
      ensures Snapshot() == Run(config, old(Snapshot()), events) && MenuEnds(events) == []
      ensures phase == Clearing(old(phase).options, ToReturn(true))
    {
      RunOne(config, Snapshot(), MenuLeave);
      phase := Clearing(phase.options, ToReturn(true));
      events := [MenuLeave];
    }

    ghost method StayInMenu() returns (events: seq<Event>)
      requires phase.Menu?
      modifies this`phase
      ensures Snapshot() == Run(config, old(Snapshot()), events) && MenuEnds(events) == []
      ensures phase == Clearing(old(phase).options, ToMenu(old(phase).warned))
    {
      RunOne(config, Snapshot(), MenuOther);
      phase := Clearing(phase.options, ToMenu(phase.warned));
      events := [MenuOther];
    }

    /** Sideload, SD card or rescue: the BCB says so before the install starts. */
    method InstallFromMenu(status: Status, visible: bool) returns (ghost events: seq<Event>)
      requires phase.Menu?
      modifies this
      ensures Snapshot() == Run(config, old(Snapshot()), events)
      ensures NothingFails() ==> tally.failures == old(tally.failures)
      ensures phase == Clearing(old(phase).options, AfterInstall(status, visible))
      ensures bcb == if miscWritable then Update(old(bcb), ["--reason=update_in_progress"]) else old(bcb)
      ensures command == old(command) && tally.installs == old(tally.installs)
      ensures MenuEnds(events) == [StartInstall(status, visible)]
    {
      hide Run, Update;
      ghost var s0, e := Snapshot(), MenuWriteFails;
      InProgressText();
      if miscWritable {
        bcb := Update(bcb, InProgressOptions());
        e := MenuBeginInstall;
      } else {
        tally := Failed(tally);
      }
      phase := MenuInstall(phase.options);
      RunTwo(config, s0, e, MenuEndInstall(status, visible));
      phase := Clearing(phase.options, AfterInstall(status, visible));
      MenuEndsTwo(e, MenuEndInstall(status, visible));
      events := [e, MenuEndInstall(status, visible)];
    }

    /** A fresh update is marked in the BCB before anything is installed. */
    method MarkUpdate(options: seq<string>, retryCount: nat) returns (ghost events: seq<Event>)
      requires phase == Started(options) && HasUpdate(options) && retryCount == CountOf(options)
      modifies this
      ensures Snapshot() == Run(config, old(Snapshot()), events) && MenuEnds(events) == []
      ensures NothingFails() ==> tally.failures == old(tally.failures)
      ensures phase == if retryCount == 0 then Armed(options) else Started(options)
      ensures bcb == if retryCount == 0 && miscWritable
                     then Update(old(bcb), RetryOptions([config.argv0] + options, 1)) else old(bcb)
      ensures command == old(command) && tally.installs == old(tally.installs)
    {
      hide Run, Update, CommandOf, RetryOptions;
      events := [];
      RunNone(config, Snapshot());
      if retryCount == 0 {
        ghost var s0, e := Snapshot(), StoreFirstFails;
        if miscWritable {
          bcb := Update(bcb, RetryOptions([config.argv0] + options, retryCount + 1));
          e := StoreFirstCount;
        } else {
          tally := Failed(tally);
        }
        RunOne(config, s0, e);
        phase := Armed(options);
        events := [e];
      }
    }

    /** Mounting the package and installing it. */
    method MountAndInstall(options: seq<string>, c: Command, i: Inputs)
      returns (installed: bool, ghost events: seq<Event>)
      requires c == CommandOf(options) && c.updatePackage.Some?
      requires phase == Armed(options) || (phase == Started(options) && CountOf(options) != 0)
      modifies this
      ensures Snapshot() == Run(config, old(Snapshot()), events) && MenuEnds(events) == []
      ensures NothingFails() ==> tally.failures == old(tally.failures)
      ensures installed <==> Mounts(c.updatePackage.value, i)
      ensures phase == if installed then Installing(options) else Settle(options, Error, i.visible)
      ensures bcb == old(bcb) && command == old(command)
      ensures tally.installs == old(tally.installs) + if installed then 1 else 0
    {
      hide Run, CommandOf, ReasonOf, Mountable;
      installed := SetupPackageMount(c.updatePackage.value, i.mountOk, i.canonical);
      if !installed {
        RunOne(config, Snapshot(), MountFails(i.visible));
        phase := Settle(options, Error, i.visible);
        events := [MountFails(i.visible)];
        return;
      }
      RunOne(config, Snapshot(), BeginInstall);
      tally := tally.(installs := tally.installs + 1);
      phase := Installing(options);
      events := [BeginInstall];
    }

    /** A retryable failure below the limit stores the next count; anything else settles. */
    method HandleResult(options: seq<string>, retryCount: nat, i: Inputs)
      returns (retry: bool, ghost events: seq<Event>)
      requires phase == Installing(options) && retryCount == CountOf(options)
      modifies this
      ensures Snapshot() == Run(config, old(Snapshot()), events) && MenuEnds(events) == []
      ensures NothingFails() ==> tally.failures == old(tally.failures)
      ensures retry <==> i.installStatus == Retry && retryCount < 4
      ensures phase == if retry then Restarting else Settle(options, i.installStatus, i.visible)
      ensures bcb == if retry && miscWritable
                     then Update(old(bcb), RetryOptions([config.argv0] + options, retryCount + 1)) else old(bcb)
      ensures command == old(command) && tally.installs == old(tally.installs)
    {
      hide Run, CommandOf, ReasonOf, Update, RetryOptions;
      ghost var s0 := Snapshot();
      retry := i.installStatus == Retry && retryCount < RETRY_LIMIT;
      if retry {
        ghost var e := StoreNextFails;
        if miscWritable {
          bcb := Update(bcb, RetryOptions([config.argv0] + options, retryCount + 1));
          e := StoreNextCount;
        } else {
          tally := Failed(tally);
        }
        RunTwo(config, s0, EndInstall(i.installStatus, i.visible), e);
        phase := Restarting;
        MenuEndsTwo(EndInstall(i.installStatus, i.visible), e);
        events := [EndInstall(i.installStatus, i.visible), e];
      } else {
        RunOne(config, s0, EndInstall(i.installStatus, i.visible));
        phase := Settle(options, i.installStatus, i.visible);
        events := [EndInstall(i.installStatus, i.visible)];
      }
    }

    /** The update branch: skip, or mark, mount, install and perhaps retry. */
    method InstallUpdate(options: seq<string>, c: Command, i: Inputs)
      returns (retry: bool, status: Status, ghost events: seq<Event>)
      requires phase == Started(options) && c == CommandOf(options) && c.updatePackage.Some?
      modifies this
      ensures Snapshot() == Run(config, old(Snapshot()), events) && MenuEnds(events) == []
      ensures NothingFails() ==> tally.failures == old(tally.failures)
      ensures retry <==> Retries(c, i)
      ensures status == FinalStatus(c, i)
      ensures tally.installs == old(tally.installs) + if Installs(c, i) then 1 else 0
      ensures phase == if retry then Restarting else Settle(options, status, i.visible)
      ensures command == old(command)
      ensures !miscWritable || Blocked(c, i) || (c.retryCount > 0 && !retry) ==> bcb == old(bcb)
      ensures miscWritable && retry ==>
                bcb == Update(old(bcb), RetryOptions([config.argv0] + options, c.retryCount + 1))
      ensures miscWritable && !retry && c.retryCount == 0 && !Blocked(c, i) ==>
                bcb == Update(old(bcb), RetryOptions([config.argv0] + options, 1))
    {
      hide Run, CommandOf, ReasonOf, Update, RetryOptions, Settle, MenuEnds;
      ghost var s0 := Snapshot();
      if c.retryCount == 0 && (!i.batteryOk || i.bootreasonBlocked) {
        retry, status := false, Skipped;
        RunOne(config, s0, SkipUpdate(i.visible));
        MenuEndsTwo(SkipUpdate(i.visible), SkipUpdate(i.visible));
        phase := Settle(options, Skipped, i.visible);
        events := [SkipUpdate(i.visible)];
        return;
      }
      events := MarkUpdate(options, c.retryCount);
      var installed;
      ghost var e;
      installed, e := MountAndInstall(options, c, i);
      Appended(s0, events, e);
      events := events + e;
      if !installed {
        return false, Error, events;
      }
      retry, e := HandleResult(options, c.retryCount, i);
      Appended(s0, events, e);
      UpdateTwice(s0.bcb, RetryOptions([config.argv0] + options, 1),
                  RetryOptions([config.argv0] + options, c.retryCount + 1));
      return retry, i.installStatus, events + e;
    }

    /** The first command in the order of the source is carried out; none of them touches the BCB. */
    method RunOtherCommand(options: seq<string>, c: Command, i: Inputs)
      returns (status: Status, ghost events: seq<Event>)
      requires phase == Started(options) && c == CommandOf(options) && c.updatePackage.None?
      modifies this`phase
      ensures Snapshot() == Run(config, old(Snapshot()), events) && MenuEnds(events) == []
      ensures status == FinalStatus(c, i)
      ensures phase == Settle(options, status, i.visible)
    {
      hide CommandOf, ReasonOf;
      status := Success;
      if c.wipeData {
        if !i.wipeOk {
          status := Error;
        }
      } else if c.promptAndWipeData {
        status := i.promptStatus;
      } else if c.wipeCache {
        if !i.wipeOk {
          status := Error;
        }
      } else if c.wipeAb {
        if !i.wipeOk {
          status := Error;
        }
      } else if c.sideload {
        status := i.adbStatus;
        if c.sideloadAutoReboot {
          status := RebootNow;
        }
      } else if c.rescue {
        status := i.adbStatus;
      } else if !c.justExit {
        status := NoCommand;
      }
      RunOne(config, Snapshot(), RunCommand(status, i.visible));
      phase := Settle(options, status, i.visible);
      events := [RunCommand(status, i.visible)];
    }

    /**
     start_recovery. It asks for a reboot into recovery exactly if an install is to be tried again;
     then the next count is in the BCB as far as it can be written. Otherwise it shows the menu if
     there is a reason to and returns with a clear BCB and no command file as far as they can be
     written. All its writes are steps of the protocol.
     */
    method StartRecovery(options: seq<string>, i: Inputs)
      returns (outcome: Outcome, prompted: bool, ghost events: seq<Event>)
      requires phase == Started(options)
      modifies this
      ensures Snapshot() == Run(config, old(Snapshot()), events)
      ensures NothingFails() ==> tally.failures == old(tally.failures)
      ensures var c := CommandOf(options);
              && (outcome == Rebooting <==> Retries(c, i))
              && (prompted <==> outcome == ReturnedToMain && Prompts(c, i))
              && tally.installs == old(tally.installs) + (if Installs(c, i) then 1 else 0)
              && (outcome == Rebooting ==>
                    && phase == Restarting && command == old(command)
                    && bcb == if miscWritable
                              then Update(old(bcb), RetryOptions([config.argv0] + options, c.retryCount + 1))
                              else old(bcb))
      ensures outcome == ReturnedToMain ==>
                && phase == Returned(options, prompted)
                && (miscWritable ==> bcb == Zeroed()) && (config.hasCache && cacheWritable ==> command == None)
      ensures exists taken: nat | taken <= |i.choices| ::
                && MenuEnds(events) == InstallsAmong(i.choices[..taken])
                && if prompted then Taken(ReasonOf(options) == "update_in_progress", i.choices, taken) else taken == 0
    {
      hide Run, Step, Zeroed, ReasonOf, CommandOf, Update, RetryOptions, MenuEnds, Taken;
      ghost var s0 := Snapshot();
      var c := ParseCommandLine(options);
      var status, taken := Success, 0;
      NoChoices(i.choices);
      prompted := false;
      if c.updatePackage.Some? {
        var retry;
        retry, status, events := InstallUpdate(options, c, i);
        if retry {
          assert MenuEnds(events) == InstallsAmong(i.choices[..0]);
          return Rebooting, false, events;
        }
      } else {
        status, events := RunOtherCommand(options, c, i);
      }
      if status != RebootNow {
        if status == NoCommand || i.visible {
          ghost var e;
          taken, e := PromptAndWait(i.choices, ReasonOf(options) == IN_PROGRESS);
          Appended(s0, events, e);
          events, prompted := events + e, true;
        }
      }
      ghost var e := FinishRecovery();
      Appended(s0, events, e);
      events := events + e;
      outcome := ReturnedToMain;
      assert MenuEnds(events) == InstallsAmong(i.choices[..taken]);
    }
  }

  lemma RunNone(c: Config, s: State)
    ensures Run(c, s, []) == s
  {
  }

  lemma RunTwo(c: Config, s: State, a: Event, b: Event)
    ensures Run(c, s, [a, b]) == Step(c, Step(c, s, a), b)
  {
    hide Step;
    RunOne(c, s, a);
    assert [a, b][..1] == [a];
  }
}
