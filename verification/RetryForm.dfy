/**
 What the messages of an update look like, when they do not fit in the BCB as well, and what
 that says about its retry limit.
 */
module RetryForm {
  import opened Common
  import opened BootMessage
  import opened Options
  import opened Recovery
  import opened RetryBound
  import opened RetryLimit

  // ---- What the messages look like ----

  /** The options with `j` copies of argv[0] in front. */
  function Copies(c: Config, base: seq<string>, j: nat): seq<string> { Repeat(c.argv0, j) + base }

  function Length(options: seq<string>): nat { |MessageText(options)| }

  lemma CopiesGrow(c: Config, base: seq<string>, j: nat)
    requires Untried(c, base)
    ensures Clean(Copies(c, base, j)) && NoCount(Copies(c, base, j))
    ensures Copies(c, base, j + 1) == [c.argv0] + Copies(c, base, j)
    ensures Length(Copies(c, base, j + 1)) == Length(Copies(c, base, j)) + |c.argv0| + 1
  {
    hide HasUpdate, CountOf;
    PlainArgvHasNoCount(c.argv0);
    var now, next := Copies(c, base, j), Copies(c, base, j + 1);
    assert next == [c.argv0] + now;
    assert next[1..] == now && next[0] == c.argv0;
    BodyWeight(now);
    BodyWeight(next);
  }

  lemma {:induction false} CopiesFit(c: Config, base: seq<string>, j: nat, m: nat)
    requires Untried(c, base) && j <= m
    ensures Length(Copies(c, base, j)) + 2 * (m - j) <= Length(Copies(c, base, m))
    decreases m - j
  {
    hide Clean, NoCount, HasUpdate, CountOf, Copies, MessageText;
    if j < m {
      CopiesGrow(c, base, j);
      assert c.argv0 != "";
      CopiesFit(c, base, j + 1, m);
    }
  }

  /**
   A message of the update: the options behind `j` copies of argv[0], and then the count `k`,
   or, when k is 0, the beginning `q` of a count for which there was no more room.
   */
  predicate Shape(c: Config, base: seq<string>, j: nat, o: seq<string>, q: string, k: nat) {
    && o == Copies(c, base, j) + Tail(q)
    && if 0 < k then q == RetryToken(k) && k <= j && k < 10 && Fits(o)
       else q <= COUNT_NAME && if q != "" then Length(Copies(c, base, j)) + |q| == RECOVERY_SIZE - 1
                               else 0 < j ==> RECOVERY_SIZE - 1 <= Length(Copies(c, base, j))
  }

  lemma CopiesMeaning(c: Config, base: seq<string>, j: nat)
    requires Untried(c, base)
    ensures CommandOf(Copies(c, base, j)) == CommandOf(base)
    ensures ScanEnd(StartAct, Copies(c, base, j)) == ScanEnd(StartAct, base)
  {
    hide CommandOf, StartAct;
    CopiesMeanNothing(c, base, j);
  }

  lemma NoCountYet(c: Config, base: seq<string>)
    requires Untried(c, base)
    ensures CountOf(base) == 0 && HasUpdate(base)
  {
  }

  /** A whole count behind an option list without one. */
  lemma WholeCountMeaning(front: seq<string>, k: nat)
    requires CountOf(front) == 0 && k < 10
    ensures var o, end := front + [RetryToken(k)], ScanEnd(StartAct, front);
            && CountOf(o) == (if end == Ready then k else 0)
            && CommandOf(o).updatePackage ==
               if end == Pending(UpdatePackage) then Some(RetryToken(k)) else CommandOf(front).updatePackage
  {
    hide CommandOf, ScanEnd, StartAct, RetryToken;
    AppendedCountMeaning(front, k);
  }

  lemma ShapeMeaning(c: Config, base: seq<string>, j: nat, o: seq<string>, q: string, k: nat)
    requires Untried(c, base) && Shape(c, base, j, o, q, k)
    ensures CountOf(o) == if ScanEnd(StartAct, base) == Ready then k else 0
    ensures CommandOf(o).updatePackage ==
            if q != "" && ScanEnd(StartAct, base) == Pending(UpdatePackage) then Some(q)
            else CommandOf(base).updatePackage
  {
    hide CommandOf, ScanEnd, StartAct, Copies, MessageText, RetryToken, Untried, HasUpdate;
    NoCountYet(c, base);
    CopiesMeaning(c, base, j);
    var front := Copies(c, base, j);
    if 0 < k {
      CountToken(k);
      WholeCountMeaning(front, k);
    } else if q == "" {
      assert front + [] == front;
    } else {
      CutCountMeaning(front, q);
    }
  }

  lemma KeptTail(front: seq<string>, q: string)
    requires NoCount(front)
    ensures Kept(front + Tail(q)) == front + if StartsWith(q, RETRY_PREFIX) then [] else Tail(q)
  {
    KeptAll(front);
    KeptAppend(front, Tail(q));
    assert q != "" ==> [q][1..] == [];
  }

  lemma CountToken(k: nat)
    requires k < 10
    ensures |RetryToken(k)| == 15 && RetryToken(k)[..14] == COUNT_NAME && CleanLine(RetryToken(k))
    ensures StartsWith(RetryToken(k), RETRY_PREFIX)
  {
    assert Decimal(k) == [DIGITS[k]];
    assert DIGITS[k] != '\n' && DIGITS[k] != '\0';
    assert RetryToken(k)[..13] == RETRY_PREFIX;
  }

  lemma LineLength(options: seq<string>, line: string)
    requires CleanLine(line)
    ensures Length(options + [line]) == Length(options) + |line| + 1
  {
    hide Body;
    BodyAppend(options, [line]);
    LineBody(line);
  }

  /** A new count is stored whole, or as much of it as there is room for. */
  lemma CountAdded(c: Config, base: seq<string>, j: nat, k: nat) returns (q: string, k': nat)
    requires Untried(c, base) && 0 < k <= j && k < 10 && Fits(Copies(c, base, j))
    ensures Shape(c, base, j, Persisted(Copies(c, base, j) + [RetryToken(k)]), q, k')
  {
    hide Untried, Clean, Copies, Persisted, CleanLine, RetryToken;
    var front, token := Copies(c, base, j), RetryToken(k);
    CopiesGrow(c, base, j);
    CountToken(k);
    LineLength(front, token);
    if Fits(front + [token]) {
      AllClean(front, token, []);
      assert front + [token] + [] == front + [token];
      ReadBack(Zeroed(), front + [token]);
      q, k' := token, k;
      StoredArePersisted(Zeroed(), front + [token]);
    } else {
      NothingClean();
      CutAt(front, token, []);
      assert front + [token] + [] == front + [token];
      q, k' := token[..Room(front)], 0;
      assert q <= COUNT_NAME;
    }
  }

  lemma NothingClean()
    ensures Clean([])
  {
  }

  lemma OneClean(line: string)
    requires CleanLine(line)
    ensures Clean([line])
  {
  }

  /** The rest of a count loses more of its end, and nothing behind it is seen. */
  lemma CountCutAgain(c: Config, base: seq<string>, j: nat, q: string, k: nat) returns (q': string)
    requires Untried(c, base) && k < 10 && Fits(Copies(c, base, j + 1))
    requires q != "" && q <= COUNT_NAME && Length(Copies(c, base, j)) + |q| == RECOVERY_SIZE - 1
    ensures Shape(c, base, j + 1, Persisted(Copies(c, base, j + 1) + [q] + [RetryToken(k)]), q', 0)
  {
    hide Untried, Clean, Copies, Persisted, RetryToken;
    var front := Copies(c, base, j + 1);
    CopiesGrow(c, base, j);
    CopiesGrow(c, base, j + 1);
    CountToken(k);
    assert CleanLine(q) by { assert forall i | 0 <= i < 14 :: COUNT_NAME[i] != '\n' && COUNT_NAME[i] != '\0'; }
    OneClean(RetryToken(k));
    CutAt(front, q, [RetryToken(k)]);
    q' := q[..Room(front)];
  }

  lemma ShapeStep(c: Config, base: seq<string>, j: nat, o: seq<string>, q: string, k: nat) returns (q': string, k': nat)
    requires Untried(c, base) && Shape(c, base, j, o, q, k) && Passable(o) && Fits(Copies(c, base, j + 1))
    ensures Shape(c, base, j + 1, Successor(c, o), q', k')
  {
    hide Untried, Clean, Copies, Persisted, RetryToken, CommandOf, Mountable, MessageText;
    var m := CountOf(o) + 1;
    ShapeMeaning(c, base, j, o, q, k);
    CopiesGrow(c, base, j);
    CopiesGrow(c, base, j + 1);
    var front := Copies(c, base, j + 1);
    assert [c.argv0] + o == front + Tail(q);
    KeptTail(front, q);
    if 0 < k { CountToken(k); }
    assert front + [] == front;
    if q == "" || StartsWith(q, RETRY_PREFIX) {
      q', k' := CountAdded(c, base, j + 1, m);
    } else {
      k' := 0;
      q' := CountCutAgain(c, base, j, q, m);
    }
  }

  /**
   For every untried update, message `i` consists of `i` copies of argv[0], all the options in
   their order, and a count or the part of it that there is room for.
   */
  lemma {:induction false} StoredShape(c: Config, base: seq<string>, i: nat) returns (q: string, k: nat)
    requires Untried(c, base) && Reaches(c, base, i) && Fits(Copies(c, base, i))
    ensures Shape(c, base, i, Stored(c, base, i), q, k)
  {
    hide Untried, Copies, Passable, Successor, MessageText;
    if i == 0 {
      q, k := "", 0;
      NoCopies(c, base);
    } else {
      CopiesFit(c, base, i - 1, i);
      q, k := StoredShape(c, base, i - 1);
      q, k := ShapeStep(c, base, i - 1, Stored(c, base, i - 1), q, k);
    }
  }

  lemma NoCopies(c: Config, base: seq<string>)
    ensures Copies(c, base, 0) == base && base + Tail("") == base
  {
  }

  // ---- Messages in which options are cut ----

  lemma NothingFits()
    ensures Fits([])
  {
  }

  /** Where the text of a long list is cut: in the line behind the first `n` options. */
  lemma {:induction false} FindCut(options: seq<string>, m: nat) returns (n: nat)
    requires m <= |options| && !Fits(options[..m])
    ensures n < |options| && Fits(options[..n]) && !Fits(options[..n + 1])
    decreases m
  {
    hide Fits;
    NothingFits();
    assert options[..0] == [];
    if Fits(options[..m - 1]) { n := m - 1; } else { n := FindCut(options, m - 1); }
  }

  /** What is left when the cut falls into `line` has the same text, as far as the BCB holds it. */
  lemma CutText(front: seq<string>, line: string, rest: seq<string>)
    requires Clean(front) && CleanLine(line) && Clean(rest)
    requires Fits(front) && RECOVERY_SIZE < Length(front) + |line| + 1
    ensures Room(front) < |line|
    ensures var o, all := front + Tail(line[..Room(front)]), front + [line] + rest;
            && RECOVERY_SIZE - 1 <= Length(o) && RECOVERY_SIZE < Length(all)
            && MessageText(o)[..RECOVERY_SIZE - 1] == MessageText(all)[..RECOVERY_SIZE - 1]
  {
    hide Body, Clean;
    var n, t := Room(front), MessageText(front);
    BodyAppend(front + [line], rest);
    BodyAppend(front, [line]);
    LineBody(line);
    var all := front + [line] + rest;
    assert MessageText(all) == t + (line + "\n" + Body(rest));
    if n == 0 {
      assert front + [] == front;
    } else {
      BodyAppend(front, [line[..n]]);
      LineBody(line[..n]);
      assert MessageText(front + [line[..n]]) == t + (line[..n] + "\n");
    }
  }

  lemma PrefixNoCount(line: string, q: string)
    requires q <= line && !StartsWith(line, RETRY_PREFIX)
    ensures !StartsWith(q, RETRY_PREFIX)
  {
  }

  lemma CutIsPlain(front: seq<string>, line: string, q: string)
    requires Clean(front) && CleanLine(line) && q <= line
    ensures Clean(front + Tail(q))
    ensures NoCount(front) && !StartsWith(line, RETRY_PREFIX) ==> NoCount(front + Tail(q))
  {
    hide StartsWith;
    if !StartsWith(line, RETRY_PREFIX) { PrefixNoCount(line, q); }
  }

  lemma PartsAreClean(options: seq<string>, n: nat)
    requires Clean(options) && n < |options|
    ensures Clean(options[..n]) && CleanLine(options[n]) && Clean(options[n + 1..])
    ensures NoCount(options) ==> NoCount(options[..n]) && !StartsWith(options[n], RETRY_PREFIX)
  {
    hide CleanLine, StartsWith;
  }

  /** What the next boot finds of a long list has the same text, as far as the BCB holds it. */
  lemma PersistedText(options: seq<string>)
    requires Clean(options) && !Fits(options)
    ensures Clean(Persisted(options)) && RECOVERY_SIZE - 1 <= Length(Persisted(options))
    ensures MessageText(Persisted(options))[..RECOVERY_SIZE - 1] == MessageText(options)[..RECOVERY_SIZE - 1]
    ensures NoCount(options) ==> NoCount(Persisted(options))
  {
    hide Clean, NoCount, Persisted, MessageText, CleanLine, StartsWith, Tail, Room;
    assert options[..|options|] == options;
    var n := FindCut(options, |options|);
    var front, line, rest := options[..n], options[n], options[n + 1..];
    assert options == front + [line] + rest && options[..n + 1] == front + [line];
    PartsAreClean(options, n);
    LineLength(front, line);
    CutAt(front, line, rest);
    CutText(front, line, rest);
    CutIsPlain(front, line, line[..Room(front)]);
  }

  /** Two long lists whose texts agree as far as the BCB holds them are read back as the same list. */
  lemma SameText(a: seq<string>, b: seq<string>)
    requires Clean(a) && Clean(b) && !Fits(a) && !Fits(b)
    requires MessageText(a)[..RECOVERY_SIZE - 1] == MessageText(b)[..RECOVERY_SIZE - 1]
    ensures Persisted(a) == Persisted(b)
  {
    hide Clean, Persisted, MessageText, OptionsIn;
    LongText(a);
    LongText(b);
  }

  lemma AppendClean(a: seq<string>, b: seq<string>)
    requires Clean(a) && Clean(b)
    ensures Clean(a + b)
  {
  }

  /** Behind a list that is too long by itself, nothing is stored. */
  lemma NothingBehind(front: seq<string>, more: seq<string>)
    requires Clean(front) && !Fits(front) && Clean(more)
    ensures Persisted(front + more) == Persisted(front)
  {
    hide Clean, Body, Persisted;
    BodyAppend(front, more);
    assert MessageText(front + more) == MessageText(front) + Body(more);
    AppendClean(front, more);
    SameText(front, front + more);
  }

  lemma AnyCountIsClean(k: nat)
    ensures CleanLine(RetryToken(k))
  {
    DigitsOfDecimal(k);
    var name := "--retry_count=";
    assert '\n' !in name && '\0' !in name;
    assert RetryToken(k) == name + Decimal(k);
  }

  /** The first message in which an option is cut. */
  lemma FirstCut(c: Config, base: seq<string>, j: nat, o: seq<string>, q: string)
    requires Untried(c, base) && o == Copies(c, base, j) + Tail(q) && !Fits(Copies(c, base, j + 1))
    requires q == "" || CleanLine(q)
    ensures Successor(c, o) == Persisted(Copies(c, base, j + 1))
  {
    hide Untried, Clean, CleanLine, NoCount, Fits, Copies, Persisted, RetryToken, CommandOf, StartsWith;
    CopiesGrow(c, base, j);
    CopiesGrow(c, base, j + 1);
    var front, m := Copies(c, base, j + 1), CountOf(o) + 1;
    assert [c.argv0] + o == front + Tail(q);
    KeptTail(front, q);
    AnyCountIsClean(m);
    OneClean(RetryToken(m));
    NothingClean();
    if q != "" { OneClean(q); }
    var more := if StartsWith(q, RETRY_PREFIX) then [] else Tail(q);
    AppendClean(more, [RetryToken(m)]);
    assert Kept([c.argv0] + o) + [RetryToken(m)] == front + (more + [RetryToken(m)]);
    NothingBehind(front, more + [RetryToken(m)]);
  }

  lemma TextGrows(c: Config, o: seq<string>, p: seq<string>)
    requires RECOVERY_SIZE - 1 <= Length(o) && RECOVERY_SIZE - 1 <= Length(p) && c.argv0 != ""
    requires CleanLine(c.argv0) && MessageText(o)[..RECOVERY_SIZE - 1] == MessageText(p)[..RECOVERY_SIZE - 1]
    ensures !Fits([c.argv0] + o) && !Fits([c.argv0] + p)
    ensures MessageText([c.argv0] + o)[..RECOVERY_SIZE - 1] == MessageText([c.argv0] + p)[..RECOVERY_SIZE - 1]
  {
    hide Body;
    BodyAppend([c.argv0], o);
    BodyAppend([c.argv0], p);
    LineBody(c.argv0);
    var n, head := RECOVERY_SIZE - 1, HEADER + c.argv0 + "\n";
    var x, y := MessageText(o), MessageText(p);
    assert x[9..n] == y[9..n] by { assert x[..n][9..] == x[9..n] && y[..n][9..] == y[9..n]; }
    assert MessageText([c.argv0] + o) == head + x[9..] && MessageText([c.argv0] + p) == head + y[9..];
    assert x[9..] == x[9..n] + x[n..] && y[9..] == y[9..n] + y[n..];
  }

  /** From then on, each message is cut as the options behind one more copy of argv[0] would be. */
  lemma LaterCut(c: Config, base: seq<string>, j: nat)
    requires Untried(c, base) && !Fits(Copies(c, base, j))
    ensures Successor(c, Persisted(Copies(c, base, j))) == Persisted(Copies(c, base, j + 1))
  {
    hide Untried, Clean, NoCount, Copies, Persisted, RetryToken, CommandOf, StartsWith, MessageText;
    CopiesGrow(c, base, j);
    CopiesGrow(c, base, j + 1);
    UntriedParts(c, base);
    var o, p, m := Persisted(Copies(c, base, j)), Copies(c, base, j), CountOf(Persisted(Copies(c, base, j))) + 1;
    PersistedText(p);
    TextGrows(c, o, p);
    PlainArgvHasNoCount(c.argv0);
    ArgvInFront(c, o);
    KeptAll([c.argv0] + o);
    AnyCountIsClean(m);
    OneClean(RetryToken(m));
    NothingBehind([c.argv0] + o, [RetryToken(m)]);
    SameText([c.argv0] + o, [c.argv0] + p);
  }

  lemma ArgvInFront(c: Config, o: seq<string>)
    requires PlainArgv(c) && Clean(o) && NoCount(o)
    ensures Clean([c.argv0] + o) && NoCount([c.argv0] + o)
  {
    hide StartsWith, CleanLine;
    PlainArgvHasNoCount(c.argv0);
  }

  /**
   When the options no longer fit behind their `i` copies of argv[0], message `i` is what the
   BCB can hold of them, whatever counts were stored before.
   */
  lemma {:induction false} StoredCut(c: Config, base: seq<string>, i: nat)
    requires Untried(c, base) && Reaches(c, base, i) && 0 < i && !Fits(Copies(c, base, i))
    ensures Stored(c, base, i) == Persisted(Copies(c, base, i))
  {
    hide Untried, Copies, Passable, Successor, Fits, Persisted, CleanLine;
    var j := i - 1;
    if j == 0 {
      NoCopies(c, base);
      FirstCut(c, base, 0, base, "");
    } else if Fits(Copies(c, base, j)) {
      var q, k := StoredShape(c, base, j);
      ShapeLine(c, base, j, Stored(c, base, j), q, k);
      FirstCut(c, base, j, Stored(c, base, j), q);
    } else {
      StoredCut(c, base, j);
      LaterCut(c, base, j);
    }
  }

  lemma ShapeLine(c: Config, base: seq<string>, j: nat, o: seq<string>, q: string, k: nat)
    requires Shape(c, base, j, o, q, k)
    ensures q == "" || CleanLine(q)
  {
    if 0 < k {
      CountToken(k);
    } else {
      assert forall i | 0 <= i < 14 :: COUNT_NAME[i] != '\n' && COUNT_NAME[i] != '\0';
    }
  }

  // ---- The closed form ----

  /**
   No run without a lapse and with at most `n` crashes, a failure counting for two, has more than
   four retry reboots, not counting one for each failure.
   */
  ghost predicate LimitHoldsFor(c: Config, s: State, n: nat) {
    forall events: seq<Event> ::
      var t := Run(c, s, events).tally; t.lapses == 0 && Met(t) <= n ==> Spent(t) <= RETRY_LIMIT
  }

  predicate PackagePending(base: seq<string>) { ScanEnd(StartAct, base) == Pending(UpdatePackage) }

  lemma PrefixIsNoPath(q: string)
    requires q != "" && (q <= COUNT_NAME || exists k :: q == RetryToken(k))
    ensures !Mountable(q)
  {
  }

  /**
   An update whose list waits for a package, or whose own package cannot be mounted, has no later
   message to retry.
   */
  lemma NotRetryable(c: Config, base: seq<string>, i: nat)
    requires Untried(c, base) && Reaches(c, base, i) && Fits(Copies(c, base, i + 1))
    requires (PackagePending(base) && 0 < i) || !Installable(base)
    ensures !Retryable(Stored(c, base, i))
  {
    hide Untried, Copies, Stored, CommandOf, Mountable, ScanEnd, RetryToken, MessageText;
    CopiesFit(c, base, i, i + 1);
    var q, k := StoredShape(c, base, i);
    if 0 < k { CountToken(k); }
    NoCountYet(c, base);
    ShapeMeaning(c, base, i, Stored(c, base, i), q, k);
    if q != "" { PrefixIsNoPath(q); }
  }

  lemma {:induction false} FewRetries(c: Config, base: seq<string>, n: nat, i: nat)
    requires Untried(c, base) && Reaches(c, base, i) && Fits(Copies(c, base, n + 2))
    requires PackagePending(base) || !Installable(base)
    ensures Retries(c, base, i) <= 1 + if n + 2 < i then i - (n + 2) else 0
  {
    hide Untried, Copies, Stored, Installable, PackagePending, Retryable, MessageText, Passable;
    if 0 < i {
      FewRetries(c, base, n, i - 1);
      if 1 < i && i <= n + 2 {
        CopiesFit(c, base, i, n + 2);
        NotRetryable(c, base, i - 1);
      }
    }
  }

  lemma PersistedBase(c: Config, base: seq<string>, n: nat)
    requires Untried(c, base) && Fits(Copies(c, base, n))
    ensures Persisted(base) == base
  {
    hide HasUpdate, CountOf, Copies, MessageText;
    CopiesFit(c, base, 0, n);
    NoCopies(c, base);
    ReadBack(Zeroed(), base);
    StoredArePersisted(Zeroed(), base);
  }

  lemma FewRetriesHold(c: Config, base: seq<string>, s: State, n: nat)
    requires Untried(c, base) && AtRest(s) && Next(c, s) == base && Fits(Copies(c, base, n + 4))
    requires PackagePending(base) || !Installable(base)
    ensures LimitHoldsFor(c, s, n)
  {
    hide Copies, Stored, Installable, PackagePending, MessageText, Run;
    hide Next, Persisted, Retries, Reaches, Clean, HasUpdate;
    forall events: seq<Event> | Run(c, s, events).tally.lapses == 0 && Met(Run(c, s, events).tally) <= n
      ensures Spent(Run(c, s, events).tally) <= RETRY_LIMIT
    {
      var start, i := RetriesAreOnPath(c, s, events);
      PersistedBase(c, base, n + 4);
      CopiesFit(c, base, n + 2, n + 4);
      FewRetries(c, base, n, i);
    }
  }

  lemma CountingSuccessor(c: Config, base: seq<string>, k: nat)
    requires Fresh(c, base) && k < RETRY_LIMIT
    ensures Successor(c, Message(c, base, k)) == Message(c, base, k + 1)
  {
    hide Untried, Fits, Message, Persisted, CommandOf, RetryOptions, ScanEnd;
    MessageMeaning(c, base, k);
    NoCountYet(c, base);
    UntriedParts(c, base);
    NextMessage(c, base, k);
    MessagesPersist(c, base, k + 1, RETRY_LIMIT, Zeroed());
    StoredArePersisted(Zeroed(), Message(c, base, k + 1));
  }

  lemma LastCountStops(c: Config, base: seq<string>)
    requires Fresh(c, base)
    ensures !Passable(Message(c, base, RETRY_LIMIT))
  {
    hide Untried, Fits, Message, CommandOf, ScanEnd, Mountable;
    MessageMeaning(c, base, RETRY_LIMIT);
  }

  /** A list that counts goes through its four counts and then stops. */
  lemma {:induction false} CountingStored(c: Config, base: seq<string>, i: nat)
    requires Fresh(c, base) && Reaches(c, base, i)
    ensures i <= RETRY_LIMIT && Stored(c, base, i) == Message(c, base, i)
  {
    hide Fresh, Message, Successor, Passable;
    if i == 0 {
      FirstMessage(c, base);
    } else {
      CountingStored(c, base, i - 1);
      LastCountStops(c, base);
      assert Passable(Stored(c, base, i - 1));
      CountingSuccessor(c, base, i - 1);
    }
  }

  lemma UntriedParts(c: Config, base: seq<string>)
    requires Untried(c, base)
    ensures PlainArgv(c) && Clean(base) && NoCount(base)
  {
  }

  lemma CountingIsLimited(c: Config, base: seq<string>)
    requires Fresh(c, base)
    ensures Limited(c, base) && Persisted(base) == base
  {
    hide Untried, Fits, Message, Persisted, Stored, Reaches;
    forall i: nat | Reaches(c, base, i) ensures Retries(c, base, i) <= RETRY_LIMIT {
      CountingStored(c, base, i);
    }
    UntriedParts(c, base);
    FirstMessage(c, base);
    MessagesPersist(c, base, 0, RETRY_LIMIT, Zeroed());
    StoredArePersisted(Zeroed(), base);
  }

  /** Any other list looks fresh, or not yet exhausted, at each of its first five boots. */
  lemma {:induction false} AllRetryable(c: Config, base: seq<string>, i: nat)
    requires Untried(c, base) && Installable(base) && Fits(Copies(c, base, RETRY_LIMIT)) && i <= RETRY_LIMIT + 1
    requires !Counting(c, base) && !PackagePending(base)
    ensures Reaches(c, base, i) && Retries(c, base, i) == i
  {
    hide Untried, Copies, Stored, CommandOf, Mountable, StartAct, MessageText, RetryToken;
    if 0 < i {
      AllRetryable(c, base, i - 1);
      CopiesFit(c, base, i - 1, RETRY_LIMIT);
      var q, k := StoredShape(c, base, i - 1);
      NoCountYet(c, base);
      ShapeMeaning(c, base, i - 1, Stored(c, base, i - 1), q, k);
      LastMessage(c, base);
      assert Retryable(Stored(c, base, i - 1));
    }
  }

  lemma LastMessage(c: Config, base: seq<string>)
    ensures Message(c, base, RETRY_LIMIT) == Copies(c, base, RETRY_LIMIT) + Tail(RetryToken(RETRY_LIMIT))
  {
  }

  /**
   The closed form, for every untried update and every number of crashes for which there is
   room: the limit works if and only if the count does, or the list ends in a package option
   without its value, which then takes the count for a path, or the package has no path that
   could be mounted.
   */
  lemma RetryLimitClosedForm(c: Config, base: seq<string>, s: State, n: nat)
    requires Untried(c, base) && AtRest(s) && Next(c, s) == base && Fits(Copies(c, base, n + 4))
    ensures LimitHoldsFor(c, s, n) <==> Counting(c, base) || PackagePending(base) || !Installable(base)
    ensures Counting(c, base) ==> LimitHolds(c, s)
  {
    hide Copies, Stored, Installable, PackagePending, MessageText, Run;
    hide Next, Persisted, Retries, Reaches, HasUpdate, Counting, Clean;
    if Counting(c, base) {
      CountingIsLimited(c, base);
      RetryLimitHoldsIff(c, s);
    } else if PackagePending(base) || !Installable(base) {
      FewRetriesHold(c, base, s, n);
    } else {
      CopiesFit(c, base, RETRY_LIMIT, n + 4);
      AllRetryable(c, base, RETRY_LIMIT + 1);
      ClimbRuns(c, s, base, RETRY_LIMIT + 1);
      var events := Climb(c, base, RETRY_LIMIT + 1);
      assert Spent(Run(c, s, events).tally) == 5 && Met(Run(c, s, events).tally) == 0;
    }
  }

  // ---- Two lists that break the limit ----

  /** A package option with a path of `n` letters below the root. */
  function PackageOption(n: nat): string { "--update_package=" + ("/" + Repeat('a', n)) }

  lemma PackageIsMountable(n: nat)
    requires 0 < n
    ensures Mountable("/" + Repeat('a', n))
  {
    var path := "/" + Repeat('a', n);
    assert path[1..] == Repeat('a', n) && path[1..][0] == 'a';
    SplitWhole(path[1..], '/');
  }

  lemma PackageLine(n: nat)
    ensures CleanLine(PackageOption(n)) && !StartsWith(PackageOption(n), RETRY_PREFIX) && |PackageOption(n)| == n + 18
  {
    var prefix := "--update_package=/";
    assert '\n' !in prefix && '\0' !in prefix;
    assert PackageOption(n) == prefix + Repeat('a', n);
    assert PackageOption(n)[2] == 'u' && RETRY_PREFIX[2] == 'r';
  }

  lemma PackageCommand(n: nat)
    ensures CommandOf([PackageOption(n)]) == NO_COMMAND.(updatePackage := Some("/" + Repeat('a', n)))
    ensures ScanEnd(StartAct, [PackageOption(n)]) == Ready
  {
    hide StartAct, Meaning, PackageOption;
    var path, base := "/" + Repeat('a', n), [PackageOption(n)];
    PackageActs(n);
    ScanOne(StartAct, PackageOption(n), Hit(UpdatePackage, path));
    assert base[1..] == [] && [] + [Hit(UpdatePackage, path)] == [Hit(UpdatePackage, path)];
    InterpretOneMore([], Hit(UpdatePackage, path));
    PackageMeaning(path);
  }

  /** An update of that package alone is untried, and its list is finished. */
  lemma PackageUpdate(c: Config, n: nat)
    requires PlainArgv(c) && 0 < n
    ensures var base := [PackageOption(n)];
            Untried(c, base) && Installable(base) && ScanEnd(StartAct, base) == Ready && Weight(base) == n + 19
  {
    hide StartAct, CommandOf, ScanEnd, Mountable, PackageOption, CleanLine, StartsWith;
    PackageCommand(n);
    PackageIsMountable(n);
    PackageLine(n);
    assert [PackageOption(n)][1..] == [];
  }

  lemma PackageActs(n: nat)
    ensures StartAct(PackageOption(n)) == Emit(Hit(UpdatePackage, "/" + Repeat('a', n)))
  {
    hide StartAct;
    UpdatePackageActs("/" + Repeat('a', n));
  }

  lemma PackageMeaning(path: string)
    ensures Meaning(NO_COMMAND, Hit(UpdatePackage, path)) == NO_COMMAND.(updatePackage := Some(path))
  {
    hide ParseInt, ParseUint;
  }

  const RECOVERY: Config := Config("/system/bin/recovery", true)

  lemma RecoveryIsPlain()
    ensures PlainArgv(RECOVERY)
  {
    var a := RECOVERY.argv0;
    assert a[0] == '/';
    assert forall i | 0 <= i < |a| :: a[i] != '\n' && a[i] != '\0';
  }

  /** The device is off and the command file holds these options. */
  function InFile(options: seq<string>): State { State(Zeroed(), Some(Body(options)), Off, NOTHING_YET) }

  lemma InFileIsNext(c: Config, options: seq<string>)
    requires Clean(options) && c.hasCache
    ensures AtRest(InFile(options)) && Next(c, InFile(options)) == options
  {
    hide Split, Filled, Body, OptionsOf;
    ZeroedOptions();
    NextOptions(c, InFile(options));
    SplitBody(options, "");
    assert Body(options) + "" == Body(options);
    FilledAppend(options, [""]);
    FilledLast("");
    FilledClean(options);
  }

  lemma FourCopies(c: Config, base: seq<string>)
    requires Untried(c, base)
    ensures Length(Copies(c, base, 4)) == Length(base) + 4 * |c.argv0| + 4
    ensures Length(Message(c, base, 4)) == Length(Copies(c, base, 4)) + 16
  {
    hide Untried, Copies, MessageText, Clean, NoCount, CleanLine, RetryToken;
    NoCopies(c, base);
    CopiesGrow(c, base, 0);
    CopiesGrow(c, base, 1);
    CopiesGrow(c, base, 2);
    CopiesGrow(c, base, 3);
    LastMessage(c, base);
    CountToken(4);
    LineLength(Copies(c, base, 4), RetryToken(4));
  }

  /**
   An ordinary update that breaks the limit: a single package option of 659 characters. Its
   first three counts are read back, the fourth loses its digit, and the update looks fresh.
   */
  lemma LostDigitBreaksTheLimit()
    ensures !LimitHoldsFor(RECOVERY, InFile([PackageOption(641)]), 0)
  {
    hide MessageText, InFile, PackageOption, Untried, Installable, ScanEnd, LimitHoldsFor, Copies, Message, StartAct;
    var base := [PackageOption(641)];
    RecoveryIsPlain();
    PackageUpdate(RECOVERY, 641);
    UntriedParts(RECOVERY, base);
    InFileIsNext(RECOVERY, base);
    BodyWeight(base);
    assert Length(base) == 669 by { TextWeight(base); }
    FourCopies(RECOVERY, base);
    RetryLimitClosedForm(RECOVERY, base, InFile(base), 0);
  }

  lemma TextWeight(options: seq<string>)
    requires Clean(options)
    ensures Length(options) == 9 + Weight(options)
  {
    BodyWeight(options);
  }

  // The other one ends in a package option without its value, and its name is short.

  const SHORT: Config := Config("r", true)

  const PENDING: seq<string> := [PackageOption(715), PACKAGE_NAME]

  lemma EmitThenAwait(act: string -> Act, a: string, b: string, h: Hit, key: Key)
    requires act(a) == Emit(h) && act(b) == Await(key)
    ensures Scan(act, [a, b]) == [h] && ScanEnd(act, [a, b]) == Pending(key)
  {
    assert [a, b][1..] == [b] && [h] + [] == [h];
  }

  lemma NoCountInName()
    ensures CleanLine(PACKAGE_NAME) && !StartsWith(PACKAGE_NAME, RETRY_PREFIX) && |PACKAGE_NAME| == 16
    ensures forall q | q <= PACKAGE_NAME && q != "" :: CleanLine(q) && !StartsWith(q, RETRY_PREFIX) && '=' !in q
  {
    assert forall i | 0 <= i < 16 :: PACKAGE_NAME[i] !in "\n\0=";
    assert PACKAGE_NAME[2] == 'u' && RETRY_PREFIX[2] == 'r';
  }

  lemma PendingUpdate()
    ensures Untried(SHORT, PENDING) && Installable(PENDING) && PackagePending(PENDING) && Length(PENDING) == 760
  {
    hide StartAct, Mountable, PackageOption, RetryToken, Interpret, MessageText;
    var first, path := [PackageOption(715)], "/" + Repeat('a', 715);
    ShortIsPlain();
    PackageUpdate(SHORT, 715);
    PackageLine(715);
    PackageActs(715);
    PackageNameWaits();
    NoCountInName();
    ScanOne(StartAct, PackageOption(715), Hit(UpdatePackage, path));
    EmitThenAwait(StartAct, PackageOption(715), PACKAGE_NAME, Hit(UpdatePackage, path), UpdatePackage);
    assert PENDING[1..] == [PACKAGE_NAME] && [PACKAGE_NAME][1..] == [];
    TextWeight(PENDING);
  }

  lemma ShortIsPlain()
    ensures PlainArgv(SHORT)
  {
    assert SHORT.argv0[0] == 'r';
  }

  /** The update alone behind `j` names, and what is left of the option that waits. */
  function Rest(j: nat, q: string): seq<string> { Copies(SHORT, [PackageOption(715)], j) + [q] }

  lemma FirstIsUntried()
    ensures Untried(SHORT, [PackageOption(715)]) && Installable([PackageOption(715)])
    ensures ScanEnd(StartAct, [PackageOption(715)]) == Ready && Length([PackageOption(715)]) == 743
  {
    hide StartAct, Mountable, PackageOption, RetryToken, MessageText;
    ShortIsPlain();
    PackageUpdate(SHORT, 715);
    UntriedParts(SHORT, [PackageOption(715)]);
    TextWeight([PackageOption(715)]);
  }

  lemma {:induction false} ShortCopies(base: seq<string>, j: nat)
    requires Untried(SHORT, base)
    ensures Length(Copies(SHORT, base, j)) == Length(base) + 2 * j
  {
    hide Untried, Clean, NoCount, MessageText, Copies;
    if j == 0 {
      NoCopies(SHORT, base);
    } else {
      ShortCopies(base, j - 1);
      CopiesGrow(SHORT, base, j - 1);
    }
  }

  /** As long as no '=' belongs to it, the rest says nothing, and the update looks fresh. */
  lemma RestIsRetryable(j: nat, q: string)
    requires q != "" && q <= PACKAGE_NAME
    ensures CountOf(Rest(j, q)) == 0 && Retryable(Rest(j, q))
  {
    hide StartAct, Mountable, PackageOption, Interpret, Copies, MessageText, NoCount, Clean, ScanEnd;
    FirstIsUntried();
    NoCountInName();
    PlainToken(q);
    CopiesMeaning(SHORT, [PackageOption(715)], j);
    OneMoreToken(StartAct, Copies(SHORT, [PackageOption(715)], j), q);
  }

  /** A last line that is no count loses its end to one more copy of argv[0]. */
  lemma LineCutAgain(c: Config, base: seq<string>, j: nat, q: string)
    requires Untried(c, base) && Fits(Copies(c, base, j + 1)) && CountOf(Copies(c, base, j) + [q]) == 0
    requires CleanLine(q) && !StartsWith(q, RETRY_PREFIX) && RECOVERY_SIZE <= Length(Copies(c, base, j + 1)) + |q|
    ensures Room(Copies(c, base, j + 1)) < |q|
    ensures Successor(c, Copies(c, base, j) + [q]) ==
            Copies(c, base, j + 1) + Tail(q[..Room(Copies(c, base, j + 1))])
  {
    hide Untried, CommandOf, Copies, MessageText, NoCount, Clean, CleanLine, RetryToken, Persisted, StartsWith;
    CopiesGrow(c, base, j);
    CopiesGrow(c, base, j + 1);
    CountToken(1);
    OneClean(RetryToken(1));
    var front, o := Copies(c, base, j + 1), Copies(c, base, j) + [q];
    assert [c.argv0] + o == front + Tail(q) by { NotEmpty(q); }
    KeptTail(front, q);
    CutAt(front, q, [RetryToken(1)]);
  }

  lemma NotEmpty(q: string)
    requires CleanLine(q)
    ensures Tail(q) == [q]
  {
  }

  lemma RestStep(j: nat, q: string, n: nat)
    requires q <= PACKAGE_NAME && 0 < n == 22 - 2 * j && |q| == n + 2
    ensures Successor(SHORT, Rest(j, q)) == Rest(j + 1, q[..n])
  {
    hide Untried, CommandOf, PackageOption, Copies, MessageText, StartsWith, CleanLine, Successor, Mountable, ScanEnd;
    RestIsRetryable(j, q);
    FirstIsUntried();
    NoCountInName();
    ShortCopies([PackageOption(715)], j + 1);
    LineCutAgain(SHORT, [PackageOption(715)], j, q);
  }

  /** The first messages give the option a value, until there is no more room for one. */
  lemma PendingStarts(i: nat)
    requires i <= 4
    ensures Reaches(SHORT, PENDING, i) && (0 < i ==> Retries(SHORT, PENDING, i) == 1)
    ensures i == 4 ==> Stored(SHORT, PENDING, i) == Rest(4, PACKAGE_NAME)
  {
    hide Untried, CommandOf, PackageOption, Copies, MessageText, RetryToken, Stored, Mountable, ScanEnd;
    PendingUpdate();
    FourCopies(SHORT, PENDING);
    if 0 < i {
      PendingStarts(i - 1);
      CopiesFit(SHORT, PENDING, i, 4);
      CopiesFit(SHORT, PENDING, i - 1, 4);
      var q, k := StoredShape(SHORT, PENDING, i - 1);
      NoCountYet(SHORT, PENDING);
      ShapeMeaning(SHORT, PENDING, i - 1, Stored(SHORT, PENDING, i - 1), q, k);
      if 1 < i { NotRetryable(SHORT, PENDING, i - 1); } else { FirstIsRetryable(); }
    }
    if i == 4 { PendingIsOut(); }
  }

  lemma FirstIsRetryable()
    ensures Retryable(Stored(SHORT, PENDING, 0))
  {
    hide Untried, CommandOf, PackageOption, Mountable;
    PendingUpdate();
    NoCountYet(SHORT, PENDING);
  }

  lemma PendingIsOut()
    requires Reaches(SHORT, PENDING, 4)
    ensures Stored(SHORT, PENDING, 4) == Rest(4, PACKAGE_NAME)
  {
    hide Untried, CommandOf, PackageOption, MessageText, RetryToken, Stored, Passable;
    PendingUpdate();
    FourCopies(SHORT, PENDING);
    var q, k := StoredShape(SHORT, PENDING, 4);
    var o := Copies(SHORT, PENDING, 4);
    if 0 < k {
      CountToken(k);
      CopiesGrow(SHORT, PENDING, 4);
      LineLength(o, RetryToken(k));
    }
    assert q == "" && o + [] == o;
    assert PENDING == [PackageOption(715)] + [PACKAGE_NAME];
  }

  /** Then the option waits again, and the update with its own package comes back. */
  lemma {:induction false} PendingGoesOn(i: nat)
    requires 4 <= i <= 8
    ensures Reaches(SHORT, PENDING, i) && Retries(SHORT, PENDING, i) == i - 3
    ensures Stored(SHORT, PENDING, i) == Rest(i, PACKAGE_NAME[..if i == 4 then 16 else 24 - 2 * i])
  {
    hide CommandOf, PackageOption, Rest, Successor, Mountable;
    if i == 4 {
      PendingStarts(4);
      assert PACKAGE_NAME[..16] == PACKAGE_NAME;
    } else {
      PendingGoesOn(i - 1);
      var m := if i == 5 then 16 else 26 - 2 * i;
      var q := PACKAGE_NAME[..m];
      RestIsRetryable(i - 1, q);
      RestStep(i - 1, q, m - 2);
      assert q[..m - 2] == PACKAGE_NAME[..m - 2];
    }
  }

  /**
   An update whose list ends in a package option without its value keeps the limit without
   crashes, as the closed form says, but not with three of them at the right time: copies of
   argv[0] then push the count out, and the option has no value again.
   */
  lemma PendingPackageBreaksTheLimit()
    ensures LimitHoldsFor(SHORT, InFile(PENDING), 0) && !LimitHoldsFor(SHORT, InFile(PENDING), 3)
  {
    hide MessageText, InFile, PackageOption, Untried, Installable, ScanEnd, Copies, Stored, Retries, Reaches, Run;
    PendingUpdate();
    UntriedParts(SHORT, PENDING);
    InFileIsNext(SHORT, PENDING);
    FourCopies(SHORT, PENDING);
    RetryLimitClosedForm(SHORT, PENDING, InFile(PENDING), 0);
    PendingGoesOn(8);
    ClimbRuns(SHORT, InFile(PENDING), PENDING, 8);
    var t := Run(SHORT, InFile(PENDING), Climb(SHORT, PENDING, 8)).tally;
    assert Spent(t) == 5 && Met(t) == 3;
  }
}
