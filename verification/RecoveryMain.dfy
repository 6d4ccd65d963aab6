/**
 get_args: recovery's arguments come from argv, else from the BCB, else from the command
 file, and are written back to the BCB so that an interrupted boot finds them again.
 */
module RecoveryMain {
  import opened Common
  import opened BootMessage

  /** The misc partition; reads and writes of it either succeed as a whole or fail. */
  class Misc {
    var bcb: Block
    var readable: bool
    var writable: bool

    constructor (b: Block, r: bool, w: bool)
      ensures bcb == b && readable == r && writable == w
    {
      bcb, readable, writable := b, r, w;
    }

    method ReadMessage() returns (ok: bool, boot: Block)
      ensures ok == readable && (ok ==> boot == bcb)
    {
      ok, boot := readable, bcb;
    }

    /** Replaces the command and the recovery field, keeping status and stage. */
    method UpdateMessage(options: seq<string>) returns (ok: bool)
      modifies this`bcb
      ensures ok == (readable && writable)
      ensures bcb == if ok then Update(old(bcb), options) else old(bcb)
    {
      var readOk, boot := ReadMessage();
      ok := readOk && writable;
      if ok {
        bcb := Update(boot, options);
      }
    }
  }

  /** argv if it has options, else the options of the BCB, else those of the command file. */
  function Gathered(argv: seq<string>, boot: Block, command: Option<string>): (args: seq<string>)
    requires argv != []
    ensures argv <= args
  {
    if |argv| != 1 then argv
    else if OptionsOf(boot) != [] then argv + OptionsOf(boot)
    else if command.Some? then argv + Lines(command.value)
    else argv
  }

  /** A bare command line becomes fastboot or rescue mode if the boot command asks for it. */
  function WithBootMode(args: seq<string>, boot: Block): seq<string> {
    if |args| == 1 && CString(boot.command) == "boot-fastboot" then args + ["--fastboot"]
    else if |args| == 1 && CString(boot.command) == "boot-rescue" then args + ["--rescue"]
    else args
  }

  lemma FilledStep(tokens: seq<string>, i: nat)
    requires i < |tokens|
    ensures Filled(tokens[i..]) == (if Wanted(tokens[i]) then [tokens[i]] else []) + Filled(tokens[i + 1..])
  {
    assert tokens[i..][1..] == tokens[i + 1..];
  }

  /** Appends the wanted tokens from index `from` on. */
  method PushTokens(args: seq<string>, tokens: seq<string>, from: nat) returns (out: seq<string>)
    requires from <= |tokens|
    ensures out == args + Filled(tokens[from..])
  {
    hide Filled;
    out := args;
    var i := from;
    while i < |tokens|
      invariant from <= i <= |tokens|
      invariant out + Filled(tokens[i..]) == args + Filled(tokens[from..])
    {
      FilledStep(tokens, i);
      if Wanted(tokens[i]) {
        out := out + [tokens[i]];
      }
      i := i + 1;
    }
    assert tokens[i..] == [];
    NothingFilled();
  }

  lemma NothingFilled()
    ensures Filled([]) == []
  {
  }

  /** The staged fallbacks of get_args. */
  method Collect(argv: seq<string>, boot: Block, command: Option<string>) returns (args: seq<string>)
    requires argv != []
    ensures args == Gathered(argv, boot, command)
  {
    hide Split, CString, Filled;
    args := argv;
    if |args| == 1 {
      var tokens := Split(CString(boot.recovery[RECOVERY_SIZE - 1 := '\0']), '\n');
      if tokens[0] == "recovery" {
        args := PushTokens(args, tokens, 1);
      }
    }
    if |args| == 1 && command.Some? {
      var tokens := Split(command.value, '\n');
      args := PushTokens(args, tokens, 0);
      assert tokens[0..] == tokens;
    }
  }

  method GetArgs(argv: seq<string>, misc: Misc, command: Option<string>) returns (args: seq<string>, stage: string)
    requires argv != []
    modifies misc`bcb
    ensures var seen := if misc.readable then old(misc.bcb) else Zeroed();
            && stage == CString(seen.stage)
            && args == WithBootMode(Gathered(argv, seen, command), seen)
            && misc.bcb == if misc.readable && misc.writable
                           then Update(old(misc.bcb), Gathered(argv, seen, command)[1..]) else old(misc.bcb)
    ensures var seen := if misc.readable then old(misc.bcb) else Zeroed();
            var found := if |argv| > 1 then []
                         else if OptionsOf(seen) != [] then OptionsOf(seen)
                         else if command.Some? then Lines(command.value)
                         else [];
            var mode := if CString(seen.command) == "boot-fastboot" then ["--fastboot"]
                        else if CString(seen.command) == "boot-rescue" then ["--rescue"]
                        else [];
            && args == argv + (if |argv| == 1 && found == [] then mode else found)
            && (misc.readable && misc.writable ==> misc.bcb == Update(old(misc.bcb), argv[1..] + found))
            && (!misc.readable || !misc.writable ==> misc.bcb == old(misc.bcb))
  {
    hide CString, OptionsOf, Lines, Update;
    var ok, boot := misc.ReadMessage();
    if !ok {
      boot := Zeroed();
    }
    stage := CString(boot.stage);
    args := Collect(argv, boot, command);
    assert args == argv + args[|argv|..] && args[1..] == argv[1..] + args[|argv|..];
    var written := misc.UpdateMessage(args[1..]);
    if |args| == 1 {
      var name := CString(boot.command);
      if name == "boot-fastboot" {
        args := args + ["--fastboot"];
      } else if name == "boot-rescue" {
        args := args + ["--rescue"];
      }
    }
  }

  // ---- Restartability ----

  /** The BCB after one more boot with a bare command line. */
  function Rebooted(b: Block, argv0: string, command: Option<string>): Block {
    Update(b, Gathered([argv0], b, command)[1..])
  }

  /** The BCB after a series of boots, each finding its own state of the command file. */
  function RebootedAll(b: Block, argv0: string, commands: seq<Option<string>>): Block {
    if commands == [] then b
    else Rebooted(RebootedAll(b, argv0, commands[..|commands| - 1]), argv0, commands[|commands| - 1])
  }

  /**
   Once get_args has stored a non-empty list of clean options that fits, every bare boot
   returns it, after any number of crashed boots and whatever happened to the command file.
   */
  lemma {:induction false} StoredArgumentsReplay(
    b: Block, argv0: string, options: seq<string>, commands: seq<Option<string>>, now: Option<string>)
    requires options != [] && Clean(options) && Fits(options)
    ensures var stored := RebootedAll(Update(b, options), argv0, commands);
            && OptionsOf(stored) == options
            && WithBootMode(Gathered([argv0], stored, now), stored) == [argv0] + options
  {
    if commands == [] {
      ReadBack(b, options);
    } else {
      var before := commands[..|commands| - 1];
      StoredArgumentsReplay(b, argv0, options, before, commands[|commands| - 1]);
      var stored := RebootedAll(Update(b, options), argv0, before);
      assert ([argv0] + options)[1..] == options;
      ReadBack(stored, options);
    }
  }

  /** Without a command file to fall back on, those are the only lists that replay. */
  lemma StoredArgumentsReplayIff(b: Block, argv0: string, options: seq<string>)
    requires options != []
    ensures Gathered([argv0], Update(b, options), None) == [argv0] + options <==> Clean(options) && Fits(options)
  {
    ReadBackIff(b, options);
    var found := OptionsOf(Update(b, options));
    assert ([argv0] + found)[1..] == found && ([argv0] + options)[1..] == options;
  }

  /** A list that was cut when it was first stored still replays unchanged from the second boot on. */
  lemma CutArgumentsReplay(b: Block, argv0: string, options: seq<string>, commands: seq<Option<string>>)
    requires OptionsOf(Update(b, options)) != []
    ensures OptionsOf(RebootedAll(Update(b, options), argv0, commands)) == OptionsOf(Update(b, options))
  {
    var b1 := Update(b, options);
    var once := OptionsOf(b1);
    StoredOptionsArePersistable(b1);
    if commands != [] {
      CutArgumentsReplay(b, argv0, options, commands[..|commands| - 1]);
      var stored := RebootedAll(b1, argv0, commands[..|commands| - 1]);
      assert ([argv0] + once)[1..] == once;
      ReadBack(stored, once);
    }
  }
}
