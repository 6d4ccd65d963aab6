/**
 The bootloader control block (BCB): fixed-size character arrays on the misc partition,
 through which recovery hands its own command line to its next boot.
 */
module BootMessage {
  import opened Common

  const COMMAND_SIZE: nat := 32
  const RECOVERY_SIZE: nat := 768

  /** The arrays as they are stored, terminators and padding included. */
  datatype Bcb = Bcb(command: seq<char>, status: seq<char>, recovery: seq<char>, stage: seq<char>)

  predicate Valid(b: Bcb) {
    |b.command| == COMMAND_SIZE && |b.status| == 32 && |b.recovery| == RECOVERY_SIZE && |b.stage| == 32
  }

  type Block = b: Bcb | Valid(b) witness Zeroed()

  function Zeroed(): (b: Bcb)
    ensures Valid(b)
  {
    Bcb(Repeat('\0', COMMAND_SIZE), Repeat('\0', 32), Repeat('\0', RECOVERY_SIZE), Repeat('\0', 32))
  }

  /** The C string an array holds: what stands before its first NUL. */
  function CString(raw: seq<char>): string { raw[..FindFrom(raw, '\0', 0)] }

  /** strlcpy of `text` into an array that was zeroed before. */
  function Field(text: string, size: nat): (raw: seq<char>)
    requires 0 < size
    ensures |raw| == size
  {
    var s := CString(text);
    var kept := if |s| < size then s else s[..size - 1];
    kept + Repeat('\0', size - |kept|)
  }

  /** One option per line; an option that already ends its line gets no second newline. */
  function Body(options: seq<string>): string {
    if options == [] then "" else
      var o := options[0];
      o + (if o != "" && o[|o| - 1] == '\n' then "" else "\n") + Body(options[1..])
  }

  const HEADER: string := "recovery\n"

  function MessageText(options: seq<string>): string { HEADER + Body(options) }

  function Update(b: Block, options: seq<string>): (b': Block)
    ensures b'.status == b.status && b'.stage == b.stage
  {
    b.(command := Field("boot-recovery", COMMAND_SIZE), recovery := Field(MessageText(options), RECOVERY_SIZE))
  }

  predicate Wanted(token: string) { token != "" && token[0] != '\0' }

  function Filled(tokens: seq<string>): (kept: seq<string>)
    ensures forall i | 0 <= i < |kept| :: kept[i] in tokens && Wanted(kept[i])
  {
    if tokens == [] then [] else (if Wanted(tokens[0]) then [tokens[0]] else []) + Filled(tokens[1..])
  }

  /** The options found in a command file: its lines, without the empty and NUL-filled ones. */
  function Lines(content: string): seq<string> { Filled(Split(content, '\n')) }

  /** The options in a message text: the lines after a first line that reads "recovery". */
  function OptionsIn(text: string): seq<string> {
    var tokens := Split(text, '\n');
    if tokens[0] == "recovery" then Filled(tokens[1..]) else []
  }

  /** The options found in a BCB, whose text is terminated by force. */
  function OptionsOf(b: Block): seq<string> { OptionsIn(CString(b.recovery[RECOVERY_SIZE - 1 := '\0'])) }

  // ---- Reading back what was written ----

  /** An option that one line of C string can carry. */
  predicate CleanLine(o: string) { o != "" && '\n' !in o && '\0' !in o }

  predicate Clean(options: seq<string>) { forall i | 0 <= i < |options| :: CleanLine(options[i]) }

  /** The options and their newlines fit; only the last newline may be cut off. */
  predicate Fits(options: seq<string>) { |MessageText(options)| <= RECOVERY_SIZE }

  function Weight(tokens: seq<string>): nat {
    if tokens == [] then 0 else |tokens[0]| + 1 + Weight(tokens[1..])
  }

  lemma {:induction false} WeightAppend(a: seq<string>, b: seq<string>)
    ensures Weight(a + b) == Weight(a) + Weight(b)
  {
    if a == [] {
      assert a + b == b;
    } else {
      assert (a + b)[1..] == a[1..] + b;
      WeightAppend(a[1..], b);
    }
  }

  lemma {:induction false} BodyWeight(options: seq<string>)
    requires Clean(options)
    ensures |Body(options)| == Weight(options) && '\0' !in Body(options)
    ensures options != [] ==> Body(options) != "" && Body(options)[|Body(options)| - 1] == '\n'
  {
    if options != [] {
      assert CleanLine(options[0]);
      BodyWeight(options[1..]);
    }
  }

  lemma BodyFirst(options: seq<string>, last: string)
    requires Clean(options) && options != []
    ensures '\n' !in options[0] && Body(options) + last == options[0] + ['\n'] + (Body(options[1..]) + last)
  {
    assert CleanLine(options[0]);
  }

  lemma {:induction false} SplitBody(options: seq<string>, last: string)
    requires Clean(options) && '\n' !in last
    ensures Split(Body(options) + last, '\n') == options + [last]
  {
    hide Split, FindFrom, Weight, Filled;
    if options == [] {
      assert Body([]) + last == last;
      SplitWhole(last, '\n');
    } else {
      var rest := Body(options[1..]) + last;
      SplitBody(options[1..], last);
      BodyFirst(options, last);
      SplitHead(options[0], rest, '\n');
      assert options + [last] == [options[0]] + (options[1..] + [last]);
    }
  }

  lemma {:induction false} SplitCutBody(options: seq<string>)
    requires Clean(options) && options != []
    ensures Body(options) != "" && Split(Body(options)[..|Body(options)| - 1], '\n') == options
  {
    hide Split, FindFrom, Weight, Filled;
    var o, b := options[0], Body(options[1..]);
    assert CleanLine(o);
    assert Body(options) == o + ['\n'] + b;
    if options[1..] == [] {
      assert Body(options)[..|Body(options)| - 1] == o && options == [o];
      SplitWhole(o, '\n');
    } else {
      SplitCutBody(options[1..]);
      assert (o + ['\n'] + b)[..|o| + |b|] == o + ['\n'] + b[..|b| - 1];
      SplitHead(o, b[..|b| - 1], '\n');
      assert options == [o] + options[1..];
    }
  }

  lemma {:induction false} FilledAppend(a: seq<string>, b: seq<string>)
    ensures Filled(a + b) == Filled(a) + Filled(b)
  {
    if a == [] {
      assert a + b == b;
    } else {
      assert (a + b)[1..] == a[1..] + b;
      FilledAppend(a[1..], b);
    }
  }

  lemma FilledLast(last: string)
    requires last != "" ==> CleanLine(last)
    ensures Filled([last]) == Tail(last)
  {
    assert [last][1..] == [];
  }

  lemma {:induction false} FilledClean(options: seq<string>)
    requires Clean(options)
    ensures Filled(options) == options
  {
    if options != [] {
      assert CleanLine(options[0]);
      FilledClean(options[1..]);
    }
  }

  /** What a reader sees of a field: the C string of the text, cut to 767 characters. */
  lemma FieldRoundTrip(text: string)
    ensures CString(Field(text, RECOVERY_SIZE)[RECOVERY_SIZE - 1 := '\0']) ==
            (if |CString(text)| < RECOVERY_SIZE then CString(text) else CString(text)[..RECOVERY_SIZE - 1])
  {
    var s := CString(text);
    var kept := if |s| < RECOVERY_SIZE then s else s[..RECOVERY_SIZE - 1];
    var raw := Field(text, RECOVERY_SIZE)[RECOVERY_SIZE - 1 := '\0'];
    assert raw[..|kept|] == kept;
    FindUnique(raw, '\0', |kept|);
  }

  lemma CleanText(options: seq<string>)
    requires Clean(options)
    ensures CString(MessageText(options)) == MessageText(options)
  {
    BodyWeight(options);
    var t := MessageText(options);
    assert '\0' !in HEADER;
    FindUnique(t, '\0', |t|);
    assert t[..|t|] == t;
  }

  lemma HeaderSplit(rest: string)
    ensures Split(HEADER + rest, '\n') == ["recovery"] + Split(rest, '\n')
  {
    assert HEADER + rest == "recovery" + ['\n'] + rest;
    SplitHead("recovery", rest, '\n');
  }

  /** A last line as an option, if it is one. */
  function Tail(last: string): seq<string> { if last == "" then [] else [last] }

  /** What the reader makes of whole lines and the beginning of another one. */
  lemma CutInLine(options: seq<string>, last: string)
    requires Clean(options) && (last != "" ==> CleanLine(last))
    ensures OptionsIn(MessageText(options) + last) == options + Tail(last)
  {
    hide Split, Filled, Clean, Body;
    SplitBody(options, last);
    assert MessageText(options) + last == HEADER + (Body(options) + last);
    HeaderSplit(Body(options) + last);
    FilledAppend(options, [last]);
    FilledLast(last);
    FilledClean(options);
    assert (["recovery"] + (options + [last]))[1..] == options + [last];
  }

  /** What it makes of a message whose text is not cut. */
  lemma WholeMessage(options: seq<string>)
    requires Clean(options)
    ensures OptionsIn(MessageText(options)) == options
  {
    hide OptionsIn, Clean;
    CutInLine(options, "");
    assert MessageText(options) + "" == MessageText(options) && options + [] == options;
  }

  /** What it makes of one that only lost its last newline. */
  lemma CutMessage(options: seq<string>)
    requires Clean(options) && |HEADER| < |MessageText(options)|
    ensures var t := MessageText(options); OptionsIn(t[..|t| - 1]) == options
  {
    hide Split, Filled, Clean;
    SplitCutBody(options);
    FilledClean(options);
    var t, body := MessageText(options), Body(options);
    HeaderSplit(body[..|body| - 1]);
    assert t[..|t| - 1] == HEADER + body[..|body| - 1];
    assert (["recovery"] + options)[1..] == options;
  }

  /** A list of clean options that fits is read back unchanged. */
  lemma ReadBack(b: Block, options: seq<string>)
    requires Clean(options) && Fits(options)
    ensures OptionsOf(Update(b, options)) == options
  {
    hide OptionsIn, CString, Field, MessageText, Clean;
    var t := MessageText(options);
    CleanText(options);
    FieldRoundTrip(t);
    if |t| < RECOVERY_SIZE { WholeMessage(options); } else { CutMessage(options); }
  }

  // ---- What survives of a message that is cut ----

  /** The options the next boot finds after `options` were stored. */
  function Persisted(options: seq<string>): seq<string> { OptionsOf(Update(Zeroed(), options)) }

  lemma StoredArePersisted(b: Block, options: seq<string>)
    ensures OptionsOf(Update(b, options)) == Persisted(options)
  {
    hide OptionsIn, CString, Field;
  }

  lemma {:induction false} BodyAppend(a: seq<string>, b: seq<string>)
    ensures Body(a + b) == Body(a) + Body(b)
  {
    if a == [] {
      assert a + b == b;
    } else {
      assert (a + b)[1..] == a[1..] + b;
      BodyAppend(a[1..], b);
    }
  }

  /** The text of a message that is too long is cut to 767 characters. */
  lemma LongText(options: seq<string>)
    requires Clean(options) && !Fits(options)
    ensures Persisted(options) == OptionsIn(MessageText(options)[..RECOVERY_SIZE - 1])
  {
    hide OptionsIn, CString, Field, MessageText, Clean;
    CleanText(options);
    FieldRoundTrip(MessageText(options));
  }

  /** How many characters of a further line the message of `options` leaves room for. */
  function Room(options: seq<string>): nat {
    if |MessageText(options)| < RECOVERY_SIZE then RECOVERY_SIZE - 1 - |MessageText(options)| else 0
  }

  /** If the cut falls into one line, the lines before it survive whole and it survives in part. */
  lemma CutAt(options: seq<string>, line: string, rest: seq<string>)
    requires Clean(options) && CleanLine(line) && Clean(rest)
    requires Fits(options) && RECOVERY_SIZE < |MessageText(options)| + |line| + 1
    ensures Room(options) < |line| && Persisted(options + [line] + rest) == options + Tail(line[..Room(options)])
  {
    hide OptionsIn, Clean, Body;
    var all, t := options + [line] + rest, MessageText(options);
    BodyAppend(options + [line], rest);
    BodyAppend(options, [line]);
    LineBody(line);
    assert MessageText(all) == t + line + "\n" + Body(rest);
    AllClean(options, line, rest);
    LongText(all);
    var n := Room(options);
    if |t| < RECOVERY_SIZE {
      assert MessageText(all)[..RECOVERY_SIZE - 1] == t + line[..n];
      assert n != 0 ==> CleanLine(line[..n]);
      CutInLine(options, line[..n]);
    } else {
      assert MessageText(all)[..RECOVERY_SIZE - 1] == t[..|t| - 1];
      CutMessage(options);
      assert options + [] == options;
    }
  }

  lemma LineBody(line: string)
    requires CleanLine(line)
    ensures Body([line]) == line + "\n"
  {
    assert [line][1..] == [];
  }

  lemma AllClean(a: seq<string>, line: string, b: seq<string>)
    requires Clean(a) && CleanLine(line) && Clean(b)
    ensures Clean(a + [line] + b)
  {
  }

  // ---- What is read is always clean and always fits ----

  lemma {:induction false} SplitPieces(s: string, d: char)
    ensures Weight(Split(s, d)) == |s| + 1
    ensures forall t | t in Split(s, d) :: d !in t
    ensures '\0' !in s ==> forall t | t in Split(s, d) :: '\0' !in t
    decreases |s|
  {
    var k := FindFrom(s, d, 0);
    if k < |s| {
      SplitPieces(s[k + 1..], d);
      assert forall c | c in s[k + 1..] :: c in s;
      assert Weight([s[..k]] + Split(s[k + 1..], d)) == |s[..k]| + 1 + Weight(Split(s[k + 1..], d)) by {
        assert ([s[..k]] + Split(s[k + 1..], d))[1..] == Split(s[k + 1..], d);
      }
    } else {
      assert Split(s, d) == [s];
      assert Weight([s]) == |s| + 1;
    }
  }

  lemma {:induction false} FilledWeight(tokens: seq<string>)
    ensures Weight(Filled(tokens)) <= Weight(tokens)
  {
    if tokens != [] {
      FilledWeight(tokens[1..]);
      if Wanted(tokens[0]) {
        assert ([tokens[0]] + Filled(tokens[1..]))[1..] == Filled(tokens[1..]);
      } else {
        assert [] + Filled(tokens[1..]) == Filled(tokens[1..]);
      }
    }
  }

  lemma CStringHasNoNul(raw: seq<char>)
    ensures '\0' !in CString(raw)
  {
  }

  /** Whatever bytes the partition holds, the options read from it could be written back whole. */
  lemma StoredOptionsArePersistable(b: Block)
    ensures Clean(OptionsOf(b)) && Fits(OptionsOf(b))
  {
    var raw := b.recovery[RECOVERY_SIZE - 1 := '\0'];
    var text := CString(raw);
    assert |text| < RECOVERY_SIZE by { assert raw[RECOVERY_SIZE - 1] == '\0'; }
    CStringHasNoNul(raw);
    SplitPieces(text, '\n');
    var tokens := Split(text, '\n');
    if tokens[0] == "recovery" {
      FilledWeight(tokens[1..]);
      BodyWeight(OptionsOf(b));
    }
  }

  /**
   Which option lists survive in the BCB: exactly the lists of clean lines whose message
   needs no more than the 768 characters of the field.
   */
  lemma ReadBackIff(b: Block, options: seq<string>)
    ensures OptionsOf(Update(b, options)) == options <==> Clean(options) && Fits(options)
  {
    if Clean(options) && Fits(options) {
      ReadBack(b, options);
    }
    StoredOptionsArePersistable(Update(b, options));
  }

  /** Even a list that was cut is stable from its second boot on. */
  lemma CutListsAreStable(b: Block, b': Block, options: seq<string>)
    ensures var once := OptionsOf(Update(b, options)); OptionsOf(Update(b', once)) == once
  {
    var once := OptionsOf(Update(b, options));
    StoredOptionsArePersistable(Update(b, options));
    ReadBack(b', once);
  }

  lemma ZeroedHasNoOptions(b: Block)
    requires b.recovery == Repeat('\0', RECOVERY_SIZE)
    ensures OptionsOf(b) == []
  {
    assert CString(b.recovery[RECOVERY_SIZE - 1 := '\0']) == "";
    SplitWhole("", '\n');
  }

  /** The layout of the message, and what a cleared one holds. */
  lemma Layout(b: Block)
    ensures |b.command| == 32 && |b.status| == 32 && |b.recovery| == 768 && |b.stage| == 32
    ensures var z := Zeroed(); forall c <- z.command + z.status + z.recovery + z.stage :: c == '\0'
  {
  }

  // ---- What counts as an option ----

  /** A line is an option unless it is empty or starts with NUL; no other line is dropped and none is added. */
  lemma {:induction false} FilledIff(tokens: seq<string>, line: string)
    ensures multiset(Filled(tokens))[line] ==
            if line != "" && line[0] != '\0' then multiset(tokens)[line] else 0
  {
    hide Wanted;
    if tokens != [] {
      var first, rest := tokens[0], tokens[1..];
      FilledIff(rest, line);
      assert tokens == [first] + rest;
      assert Wanted(first) <==> first != "" && first[0] != '\0' by { WantedIs(first); }
      if Wanted(first) {
        assert Filled(tokens) == [first] + Filled(rest);
      } else {
        assert Filled(tokens) == Filled(rest);
      }
    }
  }

  lemma WantedIs(token: string)
    ensures Wanted(token) <==> token != "" && token[0] != '\0'
  {
  }

  /** A BCB without the line "recovery" at its front has no options. */
  lemma HeaderIsRequired(b: Block)
    requires OptionsOf(b) != []
    ensures "recovery\n" <= b.recovery
  {
    var text := CString(b.recovery[RECOVERY_SIZE - 1 := '\0']);
    var k := FindFrom(text, '\n', 0);
    assert Split(text, '\n')[0] == "recovery";
    assert k < |text|;
    assert text[..k] == "recovery" && text[k] == '\n';
    assert b.recovery[..9] == text[..8] + [text[8]];
  }

  /** A newline is added behind an option that does not end with one. */
  lemma OptionLines(options: seq<string>, o: string)
    requires o != ""
    ensures Body(options + [o]) == Body(options) + (if o[|o| - 1] == '\n' then o else o + "\n")
  {
    BodyAppend(options, [o]);
    assert [o][1..] == [];
  }
}
