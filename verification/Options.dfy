/**
 Recovery's command line: getopt_long over a token list, and the meaning start_recovery
 gives to the options it recognises.
 */
module Options {
  import opened Common

  datatype Key =
    | Fastboot | InstallWithFuse | JustExit | Locale | PromptAndWipeData | Reason | Rescue | RetryCount
    | Security | ShowText | ShutdownAfter | Sideload | SideloadAutoReboot | UpdatePackage
    | WipeAb | WipeCache | WipeData | WipePackageSize

  datatype Opt = Opt(name: string, key: Key, takesValue: bool)

  /** The options start_recovery knows. */
  const START_OPTIONS: seq<Opt> := [
    Opt("fastboot", Fastboot, false), Opt("install_with_fuse", InstallWithFuse, false),
    Opt("just_exit", JustExit, false), Opt("locale", Locale, true),
    Opt("prompt_and_wipe_data", PromptAndWipeData, false), Opt("reason", Reason, true),
    Opt("rescue", Rescue, false), Opt("retry_count", RetryCount, true),
    Opt("security", Security, false), Opt("show_text", ShowText, false),
    Opt("shutdown_after", ShutdownAfter, false), Opt("sideload", Sideload, false),
    Opt("sideload_auto_reboot", SideloadAutoReboot, false), Opt("update_package", UpdatePackage, true),
    Opt("wipe_ab", WipeAb, false), Opt("wipe_cache", WipeCache, false),
    Opt("wipe_data", WipeData, false), Opt("wipe_package_size", WipePackageSize, true)
  ]

  /** The options main looks at before it calls start_recovery. */
  const MAIN_OPTIONS: seq<Opt> := [
    Opt("fastboot", Fastboot, false), Opt("locale", Locale, true), Opt("reason", Reason, true),
    Opt("show_text", ShowText, false)
  ]

  function Exact(table: seq<Opt>, name: string, from: nat): Option<Opt>
    decreases |table| - from
  {
    if |table| <= from then None
    else if table[from].name == name then Some(table[from])
    else Exact(table, name, from + 1)
  }

  function Abbreviated(table: seq<Opt>, name: string): seq<Opt> {
    if table == [] then [] else
      (if StartsWith(table[0].name, name) then [table[0]] else []) + Abbreviated(table[1..], name)
  }

  /** A name stands for the option of that name, or for the only one it abbreviates. */
  function Lookup(table: seq<Opt>, name: string): Option<Opt> {
    var exact := Exact(table, name, 0);
    if exact.Some? then exact else
      var candidates := Abbreviated(table, name);
      if |candidates| == 1 then Some(candidates[0]) else None
  }

  datatype Hit = Hit(key: Key, value: string)

  /** What the scanner does with one token in option position. */
  datatype Act = Stop | Skip | Emit(hit: Hit) | Await(key: Key)

  function ActOn(table: seq<Opt>, token: string): Act {
    if token == "--" then Stop
    else if !StartsWith(token, "--") then Skip  // an operand, or unknown short options
    else
      var body := token[2..];
      var eq := FindFrom(body, '=', 0);
      match Lookup(table, body[..eq])
      case None => Skip  // reported as '?'
      case Some(o) =>
        if o.takesValue then (if eq < |body| then Emit(Hit(o.key, body[eq + 1..])) else Await(o.key))
        else if eq < |body| then Skip
        else Emit(Hit(o.key, ""))
  }

  function StartAct(token: string): Act { ActOn(START_OPTIONS, token) }

  function MainAct(token: string): Act { ActOn(MAIN_OPTIONS, token) }

  /** The options getopt_long reports, in order. Operands are passed over wherever they stand. */
  function Scan(act: string -> Act, tokens: seq<string>): seq<Hit>
    decreases |tokens|
  {
    if tokens == [] then [] else
      match act(tokens[0])
      case Stop => []
      case Skip => Scan(act, tokens[1..])
      case Emit(h) => [h] + Scan(act, tokens[1..])
      case Await(n) => if |tokens| == 1 then [] else [Hit(n, tokens[1])] + Scan(act, tokens[2..])
  }

  /** How a scan ends: ready for more, stopped by "--", or still waiting for a value. */
  datatype End = Ready | Stopped | Pending(key: Key)

  function ScanEnd(act: string -> Act, tokens: seq<string>): End
    decreases |tokens|
  {
    if tokens == [] then Ready else
      match act(tokens[0])
      case Stop => Stopped
      case Skip => ScanEnd(act, tokens[1..])
      case Emit(h) => ScanEnd(act, tokens[1..])
      case Await(n) => if |tokens| == 1 then Pending(n) else ScanEnd(act, tokens[2..])
  }

  /** What `more` adds to a scan that ended with `end`. */
  function Continue(act: string -> Act, end: End, more: seq<string>): seq<Hit> {
    match end
    case Ready => Scan(act, more)
    case Stopped => []
    case Pending(n) => if more == [] then [] else [Hit(n, more[0])] + Scan(act, more[1..])
  }

  lemma ScanAppendAwait(act: string -> Act, a: seq<string>, b: seq<string>)
    requires |a| == 1 && act(a[0]).Await?
    ensures Scan(act, a + b) == Scan(act, a) + Continue(act, ScanEnd(act, a), b)
  {
    assert a + b == [a[0]] + b;
    if b != [] { assert (a + b)[2..] == b[1..] && (a + b)[1] == b[0]; }
  }

  /** Scanning is compositional, for every two token lists. */
  lemma {:induction false} ScanAppend(act: string -> Act, a: seq<string>, b: seq<string>)
    ensures Scan(act, a + b) == Scan(act, a) + Continue(act, ScanEnd(act, a), b)
    decreases |a|
  {
    hide Continue;
    if a == [] {
      assert a + b == b;
      ContinueReady(act, b);
    } else if act(a[0]).Await? {
      if |a| == 1 {
        ScanAppendAwait(act, a, b);
      } else {
        assert (a + b)[2..] == a[2..] + b && (a + b)[1] == a[1];
        ScanAppend(act, a[2..], b);
      }
    } else {
      assert (a + b)[1..] == a[1..] + b;
      ContinueStopped(act, b);
      ScanAppend(act, a[1..], b);
    }
  }

  lemma ContinueReady(act: string -> Act, b: seq<string>)
    ensures Continue(act, Ready, b) == Scan(act, b)
  {
  }

  lemma ContinueStopped(act: string -> Act, b: seq<string>)
    ensures Continue(act, Stopped, b) == []
  {
  }

  lemma ScanOne(act: string -> Act, token: string, h: Hit)
    requires act(token) == Emit(h)
    ensures Scan(act, [token]) == [h]
  {
    assert [token][1..] == [];
  }

  lemma {:induction false} OperandsArePassedOver(act: string -> Act, operand: string, n: nat, rest: seq<string>)
    requires act(operand) == Skip
    ensures Scan(act, Repeat(operand, n) + rest) == Scan(act, rest)
    ensures ScanEnd(act, Repeat(operand, n) + rest) == ScanEnd(act, rest)
  {
    var all := Repeat(operand, n) + rest;
    if n == 0 {
      assert all == rest;
    } else {
      assert all[1..] == Repeat(operand, n - 1) + rest;
      OperandsArePassedOver(act, operand, n - 1, rest);
    }
  }

  // ---- Integers ----

  predicate IsSpace(c: char) { c == ' ' || '\t' <= c <= '\r' }

  const INT_MAX: nat := 0x7fff_ffff
  const SIZE_MAX: nat := 0xffff_ffff_ffff_ffff

  /**
   A number of at most `max`, decimal or hexadecimal, after white space; a minus sign only where
   it may stand before 0.
   */
  function ParseNumber(s: string, max: nat, minus: bool): Option<nat> {
    if s == "" then None
    else if IsSpace(s[0]) then ParseNumber(s[1..], max, minus)
    else
      var hex := 2 < |s| && s[0] == '0' && (s[1] == 'x' || s[1] == 'X');
      var signed := !hex && (s[0] == '+' || s[0] == '-');
      var digits := if hex then s[2..] else if signed then s[1..] else s;
      match (if digits == "" then None else Digits(digits, if hex then 16 else 10))
      case None => None
      case Some(n) => if n <= max && (s[0] == '-' ==> minus && n == 0) then Some(n) else None
  }

  /** android::base::ParseInt into an int, with a minimum of 0. */
  function ParseInt(s: string): Option<nat> { ParseNumber(s, INT_MAX, true) }

  /** android::base::ParseUint into a size_t of 64 bits. */
  function ParseUint(s: string): Option<nat> { ParseNumber(s, SIZE_MAX, false) }

  // ---- The meaning of the options ----

  datatype Command = Command(
    updatePackage: Option<string>, retryCount: nat, installWithFuse: bool, security: bool, shutdownAfter: bool,
    wipeData: bool, promptAndWipeData: bool, wipeCache: bool, wipeAb: bool, wipePackageSize: nat,
    sideload: bool, sideloadAutoReboot: bool, rescue: bool, justExit: bool)

  const NO_COMMAND: Command :=
    Command(None, 0, false, false, false, false, false, false, false, 0, false, false, false, false)

  /** The effect of one option on start_recovery's local variables; `number` is its value as an integer. */
  function Assign(c: Command, key: Key, value: string, number: Option<nat>): Command {
    match key
    case InstallWithFuse => c.(installWithFuse := true)
    case JustExit => c.(justExit := true)
    case PromptAndWipeData => c.(promptAndWipeData := true)
    case Rescue => c.(rescue := true)
    case RetryCount => if number.Some? then c.(retryCount := number.value) else c
    case Security => c.(security := true)
    case Sideload => c.(sideload := true)
    case SideloadAutoReboot => c.(sideload := true, sideloadAutoReboot := true)
    case ShutdownAfter => c.(shutdownAfter := true)
    case UpdatePackage => c.(updatePackage := Some(value))
    case WipeAb => c.(wipeAb := true)
    case WipeCache => c.(wipeCache := true)
    case WipeData => c.(wipeData := true)
    case WipePackageSize => if number.Some? then c.(wipePackageSize := number.value) else c
    case Fastboot | Locale | Reason | ShowText => c  // handled by main
  }

  function Meaning(c: Command, h: Hit): Command {
    Assign(c, h.key, h.value, if h.key == WipePackageSize then ParseUint(h.value) else ParseInt(h.value))
  }

  function Interpret(hits: seq<Hit>): Command {
    if hits == [] then NO_COMMAND else Meaning(Interpret(hits[..|hits| - 1]), hits[|hits| - 1])
  }

  lemma InterpretNone()
    ensures Interpret([]) == NO_COMMAND
  {
  }

  lemma InterpretOneMore(hits: seq<Hit>, h: Hit)
    ensures Interpret(hits + [h]) == Meaning(Interpret(hits), h)
  {
    assert (hits + [h])[..|hits|] == hits;
  }

  function CommandOf(options: seq<string>): Command { Interpret(Scan(StartAct, options)) }

  // ---- What the reported options mean ----

  predicate Reports(hits: seq<Hit>, key: Key) { exists h <- hits :: h.key == key }

  /** The last answer that some reported option gives. */
  function Last<T>(hits: seq<Hit>, f: Hit -> Option<T>): (v: Option<T>)
    ensures v.None? ==> forall h <- hits :: f(h).None?
    ensures v.Some? ==> exists i | 0 <= i < |hits| ::
                          f(hits[i]) == v && forall j | i < j < |hits| :: f(hits[j]).None?
  {
    if hits == [] then None else
      var init, h := hits[..|hits| - 1], hits[|hits| - 1];
      assert hits == init + [h];
      if f(h).Some? then f(h) else Last(init, f)
  }

  function ValueOf(key: Key): Hit -> Option<string> { (h: Hit) => if h.key == key then Some(h.value) else None }

  function NumberOf(key: Key, max: nat, minus: bool): Hit -> Option<nat> {
    (h: Hit) => if h.key == key then ParseNumber(h.value, max, minus) else None
  }

  function OrElse<T>(o: Option<T>, default: T): T { if o.Some? then o.value else default }

  /** The flag that an option name stands for; options with a value and those of main have none. */
  predicate Flag(c: Command, key: Key) {
    match key
    case InstallWithFuse => c.installWithFuse
    case JustExit => c.justExit
    case PromptAndWipeData => c.promptAndWipeData
    case Rescue => c.rescue
    case Security => c.security
    case ShutdownAfter => c.shutdownAfter
    case Sideload => c.sideload
    case SideloadAutoReboot => c.sideloadAutoReboot
    case WipeAb => c.wipeAb
    case WipeCache => c.wipeCache
    case WipeData => c.wipeData
    case _ => false
  }

  predicate IsFlag(key: Key) { !ValueKey(key) && key != Fastboot && key != ShowText }

  predicate Raises(key: Key, flag: Key) { key == flag || (key == SideloadAutoReboot && flag == Sideload) }

  lemma AssignedUpdateFlag(c: Command, key: Key, value: string, number: Option<nat>, flag: Key)
    requires flag == InstallWithFuse || flag == Security || flag == ShutdownAfter
    ensures Flag(Assign(c, key, value, number), flag) <==> Flag(c, flag) || Raises(key, flag)
  {
  }

  lemma AssignedWipe(c: Command, key: Key, value: string, number: Option<nat>, flag: Key)
    requires flag == WipeData || flag == PromptAndWipeData || flag == WipeCache || flag == WipeAb
    ensures Flag(Assign(c, key, value, number), flag) <==> Flag(c, flag) || Raises(key, flag)
  {
  }

  lemma AssignedMode(c: Command, key: Key, value: string, number: Option<nat>, flag: Key)
    requires flag == Sideload || flag == SideloadAutoReboot || flag == Rescue || flag == JustExit
    ensures Flag(Assign(c, key, value, number), flag) <==> Flag(c, flag) || Raises(key, flag)
  {
  }

  /** An option raises its own flag, and no other one falls. */
  lemma AssignedFlag(c: Command, key: Key, value: string, number: Option<nat>, flag: Key)
    requires IsFlag(flag)
    ensures Flag(Assign(c, key, value, number), flag) <==> Flag(c, flag) || Raises(key, flag)
  {
    hide Assign, Flag, Raises;
    if flag == InstallWithFuse || flag == Security || flag == ShutdownAfter {
      AssignedUpdateFlag(c, key, value, number, flag);
    } else if flag == WipeData || flag == PromptAndWipeData || flag == WipeCache || flag == WipeAb {
      AssignedWipe(c, key, value, number, flag);
    } else {
      AssignedMode(c, key, value, number, flag);
    }
  }

  lemma {:induction false} FlagMeaning(hits: seq<Hit>, flag: Key)
    requires IsFlag(flag)
    ensures Flag(Interpret(hits), flag) <==>
            Reports(hits, flag) || (flag == Sideload && Reports(hits, SideloadAutoReboot))
  {
    hide ParseInt, ParseUint, Assign, Flag, IsFlag;
    if hits == [] {
      NothingRaised(flag);
    } else {
      var init, h := hits[..|hits| - 1], hits[|hits| - 1];
      FlagMeaning(init, flag);
      assert hits == init + [h];
      AssignedFlag(Interpret(init), h.key, h.value,
        if h.key == WipePackageSize then ParseUint(h.value) else ParseInt(h.value), flag);
    }
  }

  lemma NothingRaised(flag: Key)
    ensures !Flag(NO_COMMAND, flag)
  {
    match flag {
      case Sideload =>
      case _ =>
    }
  }

  lemma FlagFields(c: Command)
    ensures Flag(c, InstallWithFuse) == c.installWithFuse
    ensures Flag(c, Security) == c.security
    ensures Flag(c, ShutdownAfter) == c.shutdownAfter
    ensures Flag(c, WipeData) == c.wipeData
    ensures Flag(c, PromptAndWipeData) == c.promptAndWipeData
    ensures Flag(c, WipeCache) == c.wipeCache
    ensures Flag(c, WipeAb) == c.wipeAb
    ensures Flag(c, Sideload) == c.sideload
    ensures Flag(c, SideloadAutoReboot) == c.sideloadAutoReboot
    ensures Flag(c, Rescue) == c.rescue
    ensures Flag(c, JustExit) == c.justExit
  {
  }

  /** Each flag of start_recovery is set if and only if its own option was reported. */
  lemma FlagsMeaning(options: seq<string>)
    ensures var c, hits := CommandOf(options), Scan(StartAct, options);
            && (c.installWithFuse <==> Reports(hits, InstallWithFuse))
            && (c.security <==> Reports(hits, Security))
            && (c.shutdownAfter <==> Reports(hits, ShutdownAfter))
            && (c.wipeData <==> Reports(hits, WipeData))
            && (c.promptAndWipeData <==> Reports(hits, PromptAndWipeData))
            && (c.wipeCache <==> Reports(hits, WipeCache))
            && (c.wipeAb <==> Reports(hits, WipeAb))
            && (c.sideload <==> Reports(hits, Sideload) || Reports(hits, SideloadAutoReboot))
            && (c.sideloadAutoReboot <==> Reports(hits, SideloadAutoReboot))
            && (c.rescue <==> Reports(hits, Rescue))
            && (c.justExit <==> Reports(hits, JustExit))
  {
    hide Interpret, Scan, Reports, Flag;
    var hits := Scan(StartAct, options);
    FlagFields(Interpret(hits));
    forall flag | IsFlag(flag)
      ensures Flag(Interpret(hits), flag) <==>
              Reports(hits, flag) || (flag == Sideload && Reports(hits, SideloadAutoReboot))
    {
      FlagMeaning(hits, flag);
    }
  }

  /** The values that an option sets. */
  lemma AssignedValues(c: Command, key: Key, value: string, number: Option<nat>)
    ensures var d := Assign(c, key, value, number);
            && d.updatePackage == (if key == UpdatePackage then Some(value) else c.updatePackage)
            && d.retryCount == (if key == RetryCount && number.Some? then number.value else c.retryCount)
            && d.wipePackageSize == (if key == WipePackageSize && number.Some? then number.value else c.wipePackageSize)
  {
  }

  /** The package is the last one named, and the two numbers are the last ones that can be parsed. */
  lemma {:induction false} LastValues(hits: seq<Hit>)
    ensures Interpret(hits).updatePackage == Last(hits, ValueOf(UpdatePackage))
    ensures Interpret(hits).retryCount == OrElse(Last(hits, NumberOf(RetryCount, 0x7fff_ffff, true)), 0)
    ensures Interpret(hits).wipePackageSize ==
            OrElse(Last(hits, NumberOf(WipePackageSize, 0xffff_ffff_ffff_ffff, false)), 0)
  {
    hide ParseNumber, Assign;
    if hits != [] {
      var init, h := hits[..|hits| - 1], hits[|hits| - 1];
      LastValues(init);
      AssignedValues(Interpret(init), h.key, h.value,
        if h.key == WipePackageSize then ParseUint(h.value) else ParseInt(h.value));
    }
  }

  /** start_recovery's getopt loop, one token (or an option and its value) at a time. */
  method ParseCommandLine(options: seq<string>) returns (c: Command)
    ensures c == CommandOf(options)
  {
    hide StartAct, Meaning, Interpret;
    c := NO_COMMAND;
    InterpretNone();
    ghost var seen: seq<Hit> := [];
    var i := 0;
    while i < |options|
      invariant 0 <= i <= |options|
      invariant c == Interpret(seen)
      invariant Scan(StartAct, options) == seen + Scan(StartAct, options[i..])
    {
      var act := StartAct(options[i]);
      assert options[i..][1..] == options[i + 1..];
      match act {
        case Stop =>
          assert Scan(StartAct, options) == seen;
          return;
        case Skip =>
          i := i + 1;
        case Emit(h) =>
          InterpretOneMore(seen, h);
          c, seen, i := Meaning(c, h), seen + [h], i + 1;
        case Await(n) =>
          if i + 1 == |options| {
            assert Scan(StartAct, options) == seen;
            return;
          }
          var h := Hit(n, options[i + 1]);
          assert options[i..][2..] == options[i + 2..];
          InterpretOneMore(seen, h);
          c, seen, i := Meaning(c, h), seen + [h], i + 2;
      }
    }
    assert options[i..] == [] && seen + [] == seen;
  }

  lemma {:induction false} AbbreviatedIsInTable(table: seq<Opt>, name: string)
    ensures forall o | o in Abbreviated(table, name) :: o in table
  {
    if table != [] { AbbreviatedIsInTable(table[1..], name); }
  }

  lemma {:induction false} ExactIsInTable(table: seq<Opt>, name: string, from: nat)
    ensures Exact(table, name, from).Some? ==> Exact(table, name, from).value in table
    decreases |table| - from
  {
    if from < |table| { ExactIsInTable(table, name, from + 1); }
  }

  lemma LookupIsInTable(table: seq<Opt>, name: string)
    ensures Lookup(table, name).Some? ==> Lookup(table, name).value in table
  {
    ExactIsInTable(table, name, 0);
    AbbreviatedIsInTable(table, name);
  }

  predicate ValueKey(key: Key) {
    key == Locale || key == Reason || key == RetryCount || key == UpdatePackage || key == WipePackageSize
  }

  lemma ValueKeysTakeAValue()
    ensures forall i | 0 <= i < |START_OPTIONS| :: START_OPTIONS[i].takesValue <==> ValueKey(START_OPTIONS[i].key)
  {
    var n := 0;
    while n < |START_OPTIONS|
      invariant n <= |START_OPTIONS|
      invariant forall i | 0 <= i < n :: START_OPTIONS[i].takesValue <==> ValueKey(START_OPTIONS[i].key)
    {
      n := n + 1;
    }
  }

  /** A token without '=' emits no option that takes a value, and only such an option is waited for. */
  lemma PlainToken(token: string)
    ensures '=' !in token && StartAct(token).Emit? ==> !ValueKey(StartAct(token).hit.key)
    ensures StartAct(token).Await? ==> ValueKey(StartAct(token).key)
  {
    hide Lookup;
    ValueKeysTakeAValue();
    if StartsWith(token, "--") {
      var body := token[2..];
      var eq := FindFrom(body, '=', 0);
      assert forall i | 0 <= i < |body| :: body[i] == token[i + 2];
      LookupIsInTable(START_OPTIONS, body[..eq]);
    }
  }

  lemma {:induction false} PendingKeyTakesAValue(options: seq<string>)
    ensures ScanEnd(StartAct, options).Pending? ==> ValueKey(ScanEnd(StartAct, options).key)
    decreases |options|
  {
    hide StartAct;
    if options != [] {
      PlainToken(options[0]);
      match StartAct(options[0])
      case Stop =>
      case Await(n) => if 1 < |options| { PendingKeyTakesAValue(options[2..]); }
      case _ => PendingKeyTakesAValue(options[1..]);
    }
  }

  // ---- The retry counter ----

  function RetryToken(count: nat): string { "--" + "retry_count" + "=" + Decimal(count) }

  lemma {:induction false} ExactAt(table: seq<Opt>, k: nat, from: nat)
    requires from <= k < |table| && forall j | from <= j < k :: table[j].name != table[k].name
    ensures Exact(table, table[k].name, from) == Some(table[k])
    decreases k - from
  {
    if from < k { ExactAt(table, k, from + 1); }
  }

  lemma LookupRetryCount()
    ensures Lookup(START_OPTIONS, "retry_count") == Some(Opt("retry_count", RetryCount, true))
  {
    hide Lookup;
    NamesAreFound(RetryCount);
  }

  /** A long option with its value attached, for every name and table: one that takes none is refused. */
  lemma ActOnAttached(table: seq<Opt>, name: string, value: string)
    requires '=' !in name
    ensures ActOn(table, "--" + name + "=" + value) ==
            match Lookup(table, name)
            case None => Skip
            case Some(o) => if o.takesValue then Emit(Hit(o.key, value)) else Skip
  {
    var token := "--" + name + "=" + value;
    var body := token[2..];
    assert body == name + "=" + value;
    assert token[..2] == "--";
    assert body[..|name|] == name && body[|name|] == '=' && body[|name| + 1..] == value;
    assert forall i | 0 <= i < |name| :: body[i] == name[i];
  }

  lemma RetryTokenAct(count: nat)
    ensures StartAct(RetryToken(count)) == Emit(Hit(RetryCount, Decimal(count)))
  {
    hide ActOn, Decimal;
    LookupRetryCount();
    ActOnAttached(START_OPTIONS, "retry_count", Decimal(count));
  }

  lemma ParseBareDecimal(n: nat, max: nat, minus: bool)
    ensures ParseNumber(Decimal(n), max, minus) == if n <= max then Some(n) else None
  {
    hide Digits, Decimal;
    DigitsOfDecimal(n);
    var s := Decimal(n);
    assert '0' <= s[0] <= '9' && (1 < |s| ==> '0' <= s[1] <= '9');
  }

  lemma SpaceIsSkipped(s: string, max: nat, minus: bool)
    requires s != "" && IsSpace(s[0])
    ensures ParseNumber(s, max, minus) == ParseNumber(s[1..], max, minus)
  {
  }

  /** A decimal number is read as itself up to the limit, after any white space, and as nothing above it. */
  lemma {:induction false} ParseDecimal(spaces: string, n: nat, max: nat, minus: bool)
    requires forall c <- spaces :: c == ' ' || 9 <= c as int <= 13
    ensures ParseNumber(spaces + Decimal(n), max, minus) == if n <= max then Some(n) else None
  {
    hide ParseNumber, Decimal;
    if spaces == "" {
      assert spaces + Decimal(n) == Decimal(n);
      ParseBareDecimal(n, max, minus);
    } else {
      assert (spaces + Decimal(n))[1..] == spaces[1..] + Decimal(n);
      assert spaces[0] in spaces && forall c <- spaces[1..] :: c in spaces;
      SpaceIsSkipped(spaces + Decimal(n), max, minus);
      ParseDecimal(spaces[1..], n, max, minus);
    }
  }

  /** Hexadecimal digits, signs, and what is no number. */
  lemma NumberForms()
    ensures ParseInt("0x1F") == Some(31) && ParseInt("+7") == Some(7) && ParseInt("-0") == Some(0)
    ensures ParseInt("0xf") == Some(15) && ParseInt("0X1") == Some(1)
    ensures ParseUint("-0") == None && ParseInt("-1") == None && ParseInt("0x") == None && ParseInt("1a") == None
  {
    assert Digits("1F", 16) == Some(31) by {
      assert "1F"[..1] == "1" && "1"[..0] == "";
      assert Digits("1", 16) == Some(1);
    }
    assert Digits("f", 16) == Some(15) by { assert "f"[..0] == ""; }
    assert Digits("1", 16) == Some(1) by { assert "1"[..0] == ""; }
    assert "0xf"[2..] == "f" && "0X1"[2..] == "1";
    forall c | c == "7" || c == "0" || c == "1" ensures Digits(c, 10) == Some(DigitValue(c[0])) {
      assert c[..0] == "";
    }
    assert "+7"[1..] == "7" && "-0"[1..] == "0" && "-1"[1..] == "1" && "0x1F"[2..] == "1F" && "0x"[..1] == "0";
    assert "1a"[..1] == "1" && "-1"[1] == '1' && !IsSpace('-') && !IsSpace('+') && !IsSpace('0') && !IsSpace('1');
  }

  /** No beginning of a count option is a number. */
  lemma DashIsNoNumber(s: string)
    requires s != "" && s[0] == '-' && (1 < |s| ==> s[1] == '-')
    ensures ParseInt(s).None? && ParseUint(s).None?
  {
    if 1 < |s| {
      assert s[1..][0] == '-';
      NonDigitSpoils(s[1..], 0);
    }
  }

  lemma {:induction false} NonDigitSpoils(s: string, i: nat)
    requires i < |s| && s[i] == '-'
    ensures Digits(s, 10).None?
  {
    if i < |s| - 1 { NonDigitSpoils(s[..|s| - 1], i); }
  }

  lemma CountMeaning(c: Command, count: nat)
    requires count <= INT_MAX
    ensures Meaning(c, Hit(RetryCount, Decimal(count))) == c.(retryCount := count)
  {
    ParseDecimal("", count, INT_MAX, true);
    assert "" + Decimal(count) == Decimal(count);
  }

  /** The command when one more token follows an option list that does not end ready for it. */
  function Swallowed(c: Command, end: End, token: string): Command {
    if end == Pending(UpdatePackage) then c.(updatePackage := Some(token)) else c
  }

  lemma SwallowedHit(c: Command, key: Key, token: string)
    requires ValueKey(key) && token != "" && token[0] == '-' && (1 < |token| ==> token[1] == '-')
    ensures Meaning(c, Hit(key, token)) == Swallowed(c, Pending(key), token)
  {
    hide ParseInt, ParseUint;
    DashIsNoNumber(token);
    match key {
      case UpdatePackage =>
      case _ =>
    }
  }

  lemma SwallowedMeaning(options: seq<string>, token: string)
    requires ScanEnd(StartAct, options) != Ready && token != "" && token[0] == '-' && (1 < |token| ==> token[1] == '-')
    ensures CommandOf(options + [token]) == Swallowed(CommandOf(options), ScanEnd(StartAct, options), token)
  {
    hide Meaning, StartAct, ScanEnd;
    var hits := Scan(StartAct, options);
    ScanAppend(StartAct, options, [token]);
    PendingKeyTakesAValue(options);
    match ScanEnd(StartAct, options)
    case Stopped =>
      assert hits + [] == hits;
    case Pending(n) =>
      assert [token][1..] == [] && Scan(StartAct, []) == [] && [Hit(n, token)] + [] == [Hit(n, token)];
      InterpretOneMore(hits, Hit(n, token));
      SwallowedHit(Interpret(hits), n, token);
  }

  lemma AppendedCount(act: string -> Act, options: seq<string>, count: nat)
    requires count <= INT_MAX && act(RetryToken(count)) == Emit(Hit(RetryCount, Decimal(count)))
    requires ScanEnd(act, options) == Ready
    ensures Interpret(Scan(act, options + [RetryToken(count)])) == Interpret(Scan(act, options)).(retryCount := count)
  {
    ScanAppend(act, options, [RetryToken(count)]);
    ScanOne(act, RetryToken(count), Hit(RetryCount, Decimal(count)));
    InterpretOneMore(Scan(act, options), Hit(RetryCount, Decimal(count)));
    CountMeaning(Interpret(Scan(act, options)), count);
  }

  /**
   What the count that set_retry_bootloader_message appends does, for every option list: it
   becomes the count if no "--" and no option without its value precedes it. After "--" it does
   nothing; an option that waits for its value takes it, which only matters for the package.
   */
  lemma AppendedCountMeaning(options: seq<string>, count: nat)
    requires count <= INT_MAX
    ensures CommandOf(options + [RetryToken(count)]) ==
            if ScanEnd(StartAct, options) == Ready then CommandOf(options).(retryCount := count)
            else Swallowed(CommandOf(options), ScanEnd(StartAct, options), RetryToken(count))
  {
    hide Interpret, Scan;
    RetryTokenAct(count);
    if ScanEnd(StartAct, options) == Ready {
      AppendedCount(StartAct, options, count);
    } else {
      SwallowedMeaning(options, RetryToken(count));
    }
  }

  const COUNT_NAME: string := "--retry_count="

  /** A count that was cut before its first digit never counts; like a whole one it can only become the package. */
  lemma CutCountMeaning(options: seq<string>, token: string)
    requires token != "" && token <= COUNT_NAME
    ensures var before, after, end := CommandOf(options), CommandOf(options + [token]), ScanEnd(StartAct, options);
            && after.retryCount == before.retryCount
            && after.updatePackage == (if end == Pending(UpdatePackage) then Some(token) else before.updatePackage)
  {
    hide StartAct, Interpret, Scan, ScanEnd;
    assert COUNT_NAME[0] == '-' && COUNT_NAME[1] == '-';
    if ScanEnd(StartAct, options) == Ready {
      CutCountActs(token);
      OneMoreToken(StartAct, options, token);
    } else {
      SwallowedMeaning(options, token);
    }
  }

  /** A token in option position that names neither the package nor a number. */
  predicate Harmless(act: Act) {
    act.Emit? ==> !ValueKey(act.hit.key) || (act.hit.key == RetryCount && act.hit.value == "")
  }

  lemma EmptyCountActs()
    ensures StartAct(COUNT_NAME) == Emit(Hit(RetryCount, ""))
  {
    hide ActOn;
    LookupRetryCount();
    ActOnAttached(START_OPTIONS, "retry_count", "");
    assert "--" + "retry_count" + "=" + "" == COUNT_NAME;
  }

  lemma CutCountActs(token: string)
    requires token != "" && token <= COUNT_NAME
    ensures Harmless(StartAct(token))
  {
    hide StartAct;
    EmptyCountActs();
    if token != COUNT_NAME {
      assert forall i | 0 <= i < 13 :: COUNT_NAME[i] != '=';
      assert forall i | 0 <= i < |token| :: token[i] == COUNT_NAME[i];
      PlainToken(token);
    }
  }

  lemma HarmlessAssignment(c: Command, key: Key, value: string, number: Option<nat>)
    requires !ValueKey(key) || (key == RetryCount && number.None?)
    ensures Assign(c, key, value, number).retryCount == c.retryCount
    ensures Assign(c, key, value, number).updatePackage == c.updatePackage
  {
    match key {
      case RetryCount =>
      case _ =>
    }
  }

  lemma HarmlessMeaning(c: Command, h: Hit)
    requires !ValueKey(h.key) || (h.key == RetryCount && h.value == "")
    ensures Meaning(c, h).retryCount == c.retryCount && Meaning(c, h).updatePackage == c.updatePackage
  {
    hide Assign, ParseUint;
    HarmlessAssignment(c, h.key, h.value, if h.key == WipePackageSize then ParseUint(h.value) else ParseInt(h.value));
  }

  lemma OneMoreToken(act: string -> Act, options: seq<string>, token: string)
    requires ScanEnd(act, options) == Ready && Harmless(act(token))
    ensures var before, after := Interpret(Scan(act, options)), Interpret(Scan(act, options + [token]));
            after.retryCount == before.retryCount && after.updatePackage == before.updatePackage
  {
    hide ParseInt, ParseUint, Meaning;
    var hits := Scan(act, options);
    ScanAppend(act, options, [token]);
    assert [token][1..] == [] && hits + [] == hits;
    if act(token).Emit? {
      ScanOne(act, token, act(token).hit);
      InterpretOneMore(hits, act(token).hit);
      HarmlessMeaning(Interpret(hits), act(token).hit);
    } else {
      assert Scan(act, [token]) == [];
    }
  }

  // ---- The reason ----

  /** The reason main hands to the device's boot state. */
  function ReasonOf(options: seq<string>): string {
    OrElse(Last(Scan(MainAct, options), ValueOf(Reason)), "")
  }

  /** The last reported reason. */
  predicate IsLastReason(hits: seq<Hit>, value: string) {
    exists i | 0 <= i < |hits| :: hits[i] == Hit(Reason, value) && forall j | i < j < |hits| :: hits[j].key != Reason
  }

  /** It is the value of the last reason that is reported to main, and empty without one. */
  lemma ReasonIsLast(options: seq<string>)
    ensures if Reports(Scan(MainAct, options), Reason) then IsLastReason(Scan(MainAct, options), ReasonOf(options))
            else ReasonOf(options) == ""
  {
    LastReason(Scan(MainAct, options));
  }

  lemma LastReason(hits: seq<Hit>)
    ensures var last := Last(hits, ValueOf(Reason));
            if Reports(hits, Reason) then last.Some? && IsLastReason(hits, last.value) else last.None?
  {
    hide Last;
    var f := ValueOf(Reason);
    assert forall h: Hit :: f(h) == if h.key == Reason then Some(h.value) else None;
    var last := Last(hits, f);
    if last.Some? {
      var i :| 0 <= i < |hits| && f(hits[i]) == last && forall j | i < j < |hits| :: f(hits[j]).None?;
      assert hits[i] == Hit(Reason, last.value) && hits[i] in hits;
      forall j | i < j < |hits| ensures hits[j].key != Reason { assert f(hits[j]).None?; }
    } else {
      forall h <- hits ensures h.key != Reason { assert f(h).None?; }
    }
  }

  const IN_PROGRESS: string := "update_in_progress"

  function ReasonToken(value: string): string { "--" + "reason" + "=" + value }

  lemma LookupReason()
    ensures Lookup(MAIN_OPTIONS, "reason") == Some(Opt("reason", Reason, true))
  {
    assert MAIN_OPTIONS[1].name[0] == 'l' && |MAIN_OPTIONS[0].name| == 8;
    ExactAt(MAIN_OPTIONS, 2, 0);
  }

  lemma ReasonMeansNoCommand(value: string)
    ensures Interpret([Hit(Reason, value)]) == NO_COMMAND 
  {
    InterpretOneMore([], Hit(Reason, value));
    assert [] + [Hit(Reason, value)] == [Hit(Reason, value)];
  }

  lemma ReasonTokenActs(value: string)
    ensures StartAct(ReasonToken(value)) == Emit(Hit(Reason, value))
    ensures MainAct(ReasonToken(value)) == Emit(Hit(Reason, value))
  {
    hide ActOn, Lookup;
    LookupReason();
    NamesAreFound(Reason);
    ActOnAttached(MAIN_OPTIONS, "reason", value);
    ActOnAttached(START_OPTIONS, "reason", value);
  }

  lemma ReasonTokenMeaning(value: string)
    ensures ReasonOf([ReasonToken(value)]) == value
    ensures CommandOf([ReasonToken(value)]) == NO_COMMAND
  {
    ReasonTokenActs(value);
    ScanOne(MainAct, ReasonToken(value), Hit(Reason, value));
    ScanOne(StartAct, ReasonToken(value), Hit(Reason, value));
    ReasonMeansNoCommand(value);
  }

  // ---- The package ----

  lemma LookupUpdatePackage()
    ensures Lookup(START_OPTIONS, "update_package") == Some(Opt("update_package", UpdatePackage, true))
  {
    hide Lookup;
    NamesAreFound(UpdatePackage);
  }

  lemma UpdatePackageActs(path: string)
    ensures StartAct("--update_package=" + path) == Emit(Hit(UpdatePackage, path))
  {
    hide ActOn, Lookup;
    LookupUpdatePackage();
    ActOnAttached(START_OPTIONS, "update_package", path);
    assert "--" + "update_package" + "=" + path == "--update_package=" + path;
  }

  const PACKAGE_NAME: string := "--update_package"

  /** A long option without an attached value: a flag, or its value is the next token. */
  lemma ActOnDetached(table: seq<Opt>, name: string)
    requires '=' !in name && name != ""
    ensures ActOn(table, "--" + name) ==
            match Lookup(table, name)
            case None => Skip
            case Some(o) => if o.takesValue then Await(o.key) else Emit(Hit(o.key, ""))
  {
    var token := "--" + name;
    assert token[..2] == "--" && token[2..] == name;
    assert name[..FindFrom(name, '=', 0)] == name;
  }

  lemma PackageNameWaits()
    ensures StartAct(PACKAGE_NAME) == Await(UpdatePackage)
  {
    hide ActOn, Lookup;
    LookupUpdatePackage();
    ActOnDetached(START_OPTIONS, "update_package");
    assert "--" + "update_package" == PACKAGE_NAME;
  }

  // ---- Written options are read ----

  /** The name of each option, as it is written behind two dashes. */
  function NameOfKey(key: Key): string {
    match key
    case Fastboot => "fastboot" case InstallWithFuse => "install_with_fuse" case JustExit => "just_exit"
    case Locale => "locale" case PromptAndWipeData => "prompt_and_wipe_data" case Reason => "reason"
    case Rescue => "rescue" case RetryCount => "retry_count" case Security => "security"
    case ShowText => "show_text" case ShutdownAfter => "shutdown_after" case Sideload => "sideload"
    case SideloadAutoReboot => "sideload_auto_reboot" case UpdatePackage => "update_package"
    case WipeAb => "wipe_ab" case WipeCache => "wipe_cache" case WipeData => "wipe_data"
    case WipePackageSize => "wipe_package_size"
  }

  /** The position of each option in start_recovery's table. */
  function IndexOf(key: Key): (k: nat)
    ensures k < |START_OPTIONS| && START_OPTIONS[k] == Opt(NameOfKey(key), key, ValueKey(key))
  {
    match key
    case Fastboot => 0 case InstallWithFuse => 1 case JustExit => 2 case Locale => 3 case PromptAndWipeData => 4
    case Reason => 5 case Rescue => 6 case RetryCount => 7 case Security => 8 case ShowText => 9
    case ShutdownAfter => 10 case Sideload => 11 case SideloadAutoReboot => 12 case UpdatePackage => 13
    case WipeAb => 14 case WipeCache => 15 case WipeData => 16 case WipePackageSize => 17
  }

  /** Length and third character tell the names apart. */
  function Mark(s: string): int { if |s| < 3 then 0 else 100 * (s[2] as int) + |s| }

  function Marked(key: Key): int {
    match key
    case Fastboot => 11508 case InstallWithFuse => 11517 case JustExit => 11509 case Locale => 9906
    case PromptAndWipeData => 11120 case Reason => 9706 case Rescue => 11506 case RetryCount => 11611
    case Security => 9908 case ShowText => 11109 case ShutdownAfter => 11714 case Sideload => 10008
    case SideloadAutoReboot => 10020 case UpdatePackage => 10014 case WipeAb => 11207
    case WipeCache => 11210 case WipeData => 11209 case WipePackageSize => 11217
  }

  lemma NamesAreMarked(key: Key)
    ensures Mark(NameOfKey(key)) == Marked(key)
  {
    match key {
      case Fastboot => case InstallWithFuse => case JustExit => case Locale => case PromptAndWipeData =>
      case Reason => case Rescue => case RetryCount => case Security => case ShowText => case ShutdownAfter =>
      case Sideload => case SideloadAutoReboot => case UpdatePackage => case WipeAb => case WipeCache =>
      case WipeData => case WipePackageSize =>
    }
  }

  lemma NamesHoldNoValue(key: Key)
    ensures '=' !in NameOfKey(key) && NameOfKey(key) != ""
  {
    match key {
      case Fastboot => case InstallWithFuse => case JustExit => case Locale => case PromptAndWipeData =>
      case Reason => case Rescue => case RetryCount => case Security => case ShowText => case ShutdownAfter =>
      case Sideload => case SideloadAutoReboot => case UpdatePackage => case WipeAb => case WipeCache =>
      case WipeData => case WipePackageSize =>
    }
  }

  lemma MarksDiffer(a: Key, b: Key)
    requires Marked(a) == Marked(b)
    ensures a == b
  {
    match a {
      case Fastboot => case InstallWithFuse => case JustExit => case Locale => case PromptAndWipeData =>
      case Reason => case Rescue => case RetryCount => case Security => case ShowText => case ShutdownAfter =>
      case Sideload => case SideloadAutoReboot => case UpdatePackage => case WipeAb => case WipeCache =>
      case WipeData => case WipePackageSize =>
    }
  }

  lemma Positions(k: nat)
    requires k < |START_OPTIONS|
    ensures IndexOf(START_OPTIONS[k].key) == k
  {
  }

  /** main looks at four of the options, and reads them as start_recovery does. */
  lemma MainReadsTheSame()
    ensures forall o <- MAIN_OPTIONS :: o == Opt(NameOfKey(o.key), o.key, ValueKey(o.key))
    ensures (set o <- MAIN_OPTIONS :: o.key) == {Fastboot, Locale, Reason, ShowText}
  {
    forall i | 0 <= i < |MAIN_OPTIONS|
      ensures MAIN_OPTIONS[i] == Opt(NameOfKey(MAIN_OPTIONS[i].key), MAIN_OPTIONS[i].key, ValueKey(MAIN_OPTIONS[i].key))
    {
    }
    assert MAIN_OPTIONS[0].key == Fastboot && MAIN_OPTIONS[1].key == Locale;
    assert MAIN_OPTIONS[2].key == Reason && MAIN_OPTIONS[3].key == ShowText;
  }

  /** Every option is found under its own name. */
  lemma NamesAreFound(key: Key)
    ensures Lookup(START_OPTIONS, NameOfKey(key)) == Some(Opt(NameOfKey(key), key, ValueKey(key)))
  {
    var k := IndexOf(key);
    forall j | 0 <= j < k ensures START_OPTIONS[j].name != START_OPTIONS[k].name {
      Positions(j);
      NamesAreMarked(START_OPTIONS[j].key);
      NamesAreMarked(key);
      if Marked(START_OPTIONS[j].key) == Marked(key) { MarksDiffer(START_OPTIONS[j].key, key); }
    }
    ExactAt(START_OPTIONS, k, 0);
  }

  /** A token of a command line: an option with its value, attached or as the next token, or an operand. */
  datatype Item = Named(hit: Hit, attached: bool) | Operand(text: string)

  predicate Writable(item: Item) {
    match item
    case Named(h, _) => ValueKey(h.key) || h.value == ""
    case Operand(text) => !StartsWith(text, "--")
  }

  function WrittenItem(item: Item): seq<string> {
    match item
    case Operand(text) => [text]
    case Named(h, attached) =>
      var name := "--" + NameOfKey(h.key);
      if !ValueKey(h.key) then [name] else if attached then [name + "=" + h.value] else [name, h.value]
  }

  function HitOf(item: Item): seq<Hit> { if item.Named? then [item.hit] else [] }

  function Written(items: seq<Item>): seq<string> {
    if items == [] then [] else WrittenItem(items[0]) + Written(items[1..])
  }

  function HitsOf(items: seq<Item>): seq<Hit> {
    if items == [] then [] else HitOf(items[0]) + HitsOf(items[1..])
  }

  lemma WrittenItemIsRead(item: Item, rest: seq<string>)
    requires Writable(item)
    ensures Scan(StartAct, WrittenItem(item) + rest) == HitOf(item) + Scan(StartAct, rest)
  {
    hide ActOn, Lookup, Scan, NameOfKey;
    var tokens := WrittenItem(item) + rest;
    ScanStep(StartAct, tokens);
    match item
    case Operand(text) =>
      assert tokens[1..] == rest;
      OperandsAreSkipped(text);
    case Named(h, attached) =>
      var name := NameOfKey(h.key);
      NamesAreFound(h.key);
      NamesHoldNoValue(h.key);
      if ValueKey(h.key) && attached {
        ActOnAttached(START_OPTIONS, name, h.value);
        assert tokens[1..] == rest;
      } else {
        ActOnDetached(START_OPTIONS, name);
        assert ValueKey(h.key) ==> tokens[2..] == rest;
        assert !ValueKey(h.key) ==> tokens[1..] == rest;
      }
  }

  lemma OperandsAreSkipped(text: string)
    requires !StartsWith(text, "--")
    ensures StartAct(text) == Skip
  {
  }

  lemma ScanStep(act: string -> Act, tokens: seq<string>)
    requires tokens != []
    ensures Scan(act, tokens) ==
            match act(tokens[0])
            case Stop => []
            case Skip => Scan(act, tokens[1..])
            case Emit(h) => [h] + Scan(act, tokens[1..])
            case Await(n) => if |tokens| == 1 then [] else [Hit(n, tokens[1])] + Scan(act, tokens[2..])
  {
  }

  /**
   Every option written behind its dashes is reported with its value, in order, whatever operands
   stand between them, and nothing behind "--" is.
   */
  lemma {:induction false} WrittenOptionsAreRead(items: seq<Item>, rest: seq<string>)
    requires forall item <- items :: Writable(item)
    ensures Scan(StartAct, Written(items) + ["--"] + rest) == HitsOf(items)
  {
    hide Scan, Writable, StartAct, WrittenItem, HitOf;
    if items == [] {
      DashesStop(rest);
      assert Written(items) + ["--"] + rest == ["--"] + rest;
    } else {
      var more := Written(items[1..]) + ["--"] + rest;
      WrittenOptionsAreRead(items[1..], rest);
      WrittenItemIsRead(items[0], more);
      assert Written(items) + ["--"] + rest == WrittenItem(items[0]) + more;
    }
  }

  lemma DashesStop(rest: seq<string>)
    ensures Scan(StartAct, ["--"] + rest) == []
  {
  }

  // ---- Abbreviations ----

  lemma {:induction false} ExactIff(table: seq<Opt>, name: string, from: nat)
    requires from <= |table|
    ensures match Exact(table, name, from)
            case None => forall i | from <= i < |table| :: table[i].name != name
            case Some(o) => exists i | from <= i < |table| ::
                              && table[i] == o && o.name == name
                              && forall j | from <= j < i :: table[j].name != name
    decreases |table| - from
  {
    if from < |table| && table[from].name != name {
      ExactIff(table, name, from + 1);
    }
  }

  predicate Begins(o: Opt, name: string) { StartsWith(o.name, name) }

  lemma {:induction false} AbbreviatedLength(table: seq<Opt>, name: string, i: nat, j: nat)
    requires i <= j < |table| && Begins(table[i], name) && Begins(table[j], name)
    ensures |Abbreviated(table, name)| >= if i < j then 2 else 1
  {
    if i > 0 {
      AbbreviatedLength(table[1..], name, i - 1, j - 1);
    } else if j > 0 {
      AbbreviatedLength(table[1..], name, j - 1, j - 1);
    }
  }

  lemma {:induction false} AbbreviatedOnly(table: seq<Opt>, name: string, k: nat)
    requires k <= |table| && forall i | 0 <= i < |table| && i != k :: !Begins(table[i], name)
    ensures Abbreviated(table, name) == if k < |table| && Begins(table[k], name) then [table[k]] else []
  {
    if table != [] {
      assert k > 0 ==> !Begins(table[0], name);
      AbbreviatedOnly(table[1..], name, if k == 0 then |table| - 1 else k - 1);
      if k == |table| { assert Abbreviated(table, name) == []; }
    }
  }

  /** A name that no option bears stands for the only option that begins with it, and for none if there are two. */
  lemma AbbreviationIff(table: seq<Opt>, name: string, k: nat)
    requires k < |table| && Begins(table[k], name) && forall o <- table :: o.name != name
    ensures Lookup(table, name) == Some(table[k]) <==>
            forall i | 0 <= i < |table| && i != k :: !Begins(table[i], name)
  {
    ExactIff(table, name, 0);
    if i :| 0 <= i < |table| && i != k && Begins(table[i], name) {
      AbbreviatedLength(table, name, if i < k then i else k, if i < k then k else i);
    } else {
      AbbreviatedOnly(table, name, k);
    }
  }
}
