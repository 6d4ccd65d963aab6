/** TWPartition::Process_FS_Flags: sorting an fstab's comma list into flags and options. */
module MountFlags {
  import opened Common
  import Paths

  /** strtok_r on commas: the non-empty pieces. */
  function Tokens(s: string): seq<string> { Paths.NonEmpty(Split(s, ',')) }

  const IGNORED_ITEMS: seq<string> := ["defaults=", "errors=", "latemount", "sysfs_path="]

  datatype Flag = Flag(name: string, bits: bv32)

  const MS_RDONLY: bv32 := 1

  const MOUNT_FLAGS: seq<Flag> := [
    Flag("noatime", 0x400), Flag("noexec", 8), Flag("nosuid", 2), Flag("nodev", 4), Flag("nodiratime", 0x800),
    Flag("ro", MS_RDONLY), Flag("rw", 0), Flag("remount", 0x20), Flag("bind", 0x1000), Flag("rec", 0x4000),
    Flag("unbindable", 0x2_0000), Flag("private", 0x4_0000), Flag("slave", 0x8_0000), Flag("shared", 0x10_0000),
    Flag("sync", 0x10)
  ]

  /** The part of a token before its first '='. */
  function NameOf(token: string): string { token[..FindFrom(token, '=', 0)] }

  predicate HasEquals(token: string) { FindFrom(token, '=', 0) < |token| }

  /** strncmp over the length of the name: any prefix of an item matches it, the empty one included. */
  predicate Ignored(token: string) {
    exists i | 0 <= i < |IGNORED_ITEMS| :: StartsWith(IGNORED_ITEMS[i], NameOf(token))
  }

  /** The first entry of the table with this name. */
  function FindFlag(table: seq<Flag>, token: string, from: nat): (f: Option<Flag>)
    ensures f.Some? ==> f.value in table && f.value.name == token
    ensures f.None? ==> forall i | from <= i < |table| :: table[i].name != token
    decreases |table| - from
  {
    if |table| <= from then None
    else if table[from].name == token then Some(table[from])
    else FindFlag(table, token, from + 1)
  }

  function FlagOf(token: string): Option<Flag> { FindFlag(MOUNT_FLAGS, token, 0) }

  /** What a token is taken for. */
  datatype Class = Dropped | MountFlag(bits: bv32) | MountOption

  function Classify(token: string): Class {
    if Ignored(token) then Dropped
    else
      var f := FlagOf(token);
      if !HasEquals(token) && f.Some? then MountFlag(f.value.bits) else MountOption
  }

  /** The outcome of a token list on the partition's three fields; options in their order. */
  function OptionTokens(tokens: seq<string>): seq<string> {
    if tokens == [] then [] else
      OptionTokens(tokens[..|tokens| - 1])
      + if Classify(tokens[|tokens| - 1]).MountOption? then [tokens[|tokens| - 1]] else []
  }

  function FlagBits(c: Class): bv32 { if c.MountFlag? && c.bits != MS_RDONLY then c.bits else 0 }

  function AllBits(tokens: seq<string>): bv32 {
    if tokens == [] then 0 else AllBits(tokens[..|tokens| - 1]) | FlagBits(Classify(tokens[|tokens| - 1]))
  }

  predicate AsksReadOnly(tokens: seq<string>) {
    exists i | 0 <= i < |tokens| :: Classify(tokens[i]) == MountFlag(MS_RDONLY)
  }

  function Joined(tokens: seq<string>): string {
    if tokens == [] then "" else if |tokens| == 1 then tokens[0] else tokens[0] + "," + Joined(tokens[1..])
  }

  // ---- The loop ----

  lemma {:induction false} JoinOneMore(tokens: seq<string>, t: string)
    requires forall i | 0 <= i < |tokens| :: tokens[i] != ""
    ensures Joined(tokens + [t]) == if Joined(tokens) == "" then t else Joined(tokens) + "," + t
    ensures tokens != [] ==> Joined(tokens) != ""
  {
    if tokens != [] {
      assert (tokens + [t])[1..] == tokens[1..] + [t];
      JoinOneMore(tokens[1..], t);
      if |tokens| == 1 {
        assert tokens[1..] == [] && tokens[1..] + [t] == [t];
      } else {
        assert Joined(tokens + [t]) == tokens[0] + "," + Joined(tokens[1..] + [t]);
      }
    } else {
      assert [] + [t] == [t];
    }
  }

  lemma {:induction false} OptionTokensNonEmpty(tokens: seq<string>)
    requires forall i | 0 <= i < |tokens| :: tokens[i] != ""
    ensures forall i | 0 <= i < |OptionTokens(tokens)| :: OptionTokens(tokens)[i] != ""
  {
    hide Classify;
    if tokens != [] { OptionTokensNonEmpty(tokens[..|tokens| - 1]); }
  }

  class TWPartition {
    var mountFlags: bv32
    var mountReadOnly: bool
    var mountOptions: string

    constructor (flags: bv32, readOnly: bool, options: string)
      ensures mountFlags == flags && mountReadOnly == readOnly && mountOptions == options
    {
      mountFlags, mountReadOnly, mountOptions := flags, readOnly, options;
    }

    /** One round of the token loop. */
    method ProcessToken(ptr: string)
      modifies this
      ensures var c := Classify(ptr);
              && mountOptions == (if !c.MountOption? then old(mountOptions)
                                  else if old(mountOptions) == "" then ptr else old(mountOptions) + "," + ptr)
              && mountFlags == old(mountFlags) | FlagBits(c)
              && mountReadOnly == (old(mountReadOnly) || c == MountFlag(MS_RDONLY))
    {
      hide Ignored, FlagOf, HasEquals;
      if Ignored(ptr) {
        return;
      }
      var flag := FlagOf(ptr);
      if !HasEquals(ptr) && flag.Some? {
        if flag.value.bits == MS_RDONLY {
          mountReadOnly := true;
        } else {
          mountFlags := mountFlags | flag.value.bits;
        }
        return;
      }
      if mountOptions != "" {
        mountOptions := mountOptions + ",";
      }
      mountOptions := mountOptions + ptr;
    }

    method ProcessFsFlags(str: string)
      modifies this
      ensures mountOptions == Joined(OptionTokens(Tokens(str)))
      ensures mountFlags == old(mountFlags) | AllBits(Tokens(str))
      ensures mountReadOnly == (old(mountReadOnly) || AsksReadOnly(Tokens(str)))
    {
      hide Classify, FlagBits, Tokens, OptionTokens, AllBits, AsksReadOnly, Joined;
      mountOptions := "";
      var tokens := Tokens(str);
      TokensNonEmpty(str);
      NoTokens();
      var j := 0;
      while j < |tokens|
        invariant 0 <= j <= |tokens|
        invariant mountOptions == Joined(OptionTokens(tokens[..j]))
        invariant mountFlags == old(mountFlags) | AllBits(tokens[..j])
        invariant mountReadOnly == (old(mountReadOnly) || AsksReadOnly(tokens[..j]))
      {
        assert tokens[..j + 1] == tokens[..j] + [tokens[j]];
        OneMoreToken(tokens[..j], tokens[j]);
        OptionTokensNonEmpty(tokens[..j]);
        JoinOneMore(OptionTokens(tokens[..j]), tokens[j]);
        OrAssociates(old(mountFlags), AllBits(tokens[..j]), FlagBits(Classify(tokens[j])));
        ProcessToken(tokens[j]);
        assert OptionTokens(tokens[..j]) + [] == OptionTokens(tokens[..j]);
        j := j + 1;
      }
      assert tokens[..j] == tokens;
    }
  }

  lemma NoTokens()
    ensures Joined(OptionTokens([])) == "" && AllBits([]) == 0 && !AsksReadOnly([])
  {
  }

  lemma OrAssociates(a: bv32, b: bv32, c: bv32)
    ensures a | 0 == a && (a | b) | c == a | (b | c)
  {
  }

  lemma TokensNonEmpty(s: string)
    ensures forall i | 0 <= i < |Tokens(s)| :: Tokens(s)[i] != ""
  {
  }

  lemma OneMoreToken(tokens: seq<string>, t: string)
    ensures OptionTokens(tokens + [t]) == OptionTokens(tokens) + if Classify(t).MountOption? then [t] else []
    ensures AllBits(tokens + [t]) == AllBits(tokens) | FlagBits(Classify(t))
    ensures AsksReadOnly(tokens + [t]) <==> AsksReadOnly(tokens) || Classify(t) == MountFlag(MS_RDONLY)
  {
    hide Classify;
    var all := tokens + [t];
    assert all[..|all| - 1] == tokens && all[|all| - 1] == t;
    if AsksReadOnly(tokens) {
      var i :| 0 <= i < |tokens| && Classify(tokens[i]) == MountFlag(MS_RDONLY);
      assert Classify(all[i]) == MountFlag(MS_RDONLY);
    }
  }

  // ---- The normal form ----

  predicate PlainTokens(tokens: seq<string>) {
    forall i | 0 <= i < |tokens| :: tokens[i] != "" && ',' !in tokens[i]
  }

  lemma {:induction false} OptionTokensArePlain(tokens: seq<string>)
    requires PlainTokens(tokens)
    ensures PlainTokens(OptionTokens(tokens))
    ensures forall i | 0 <= i < |OptionTokens(tokens)| :: Classify(OptionTokens(tokens)[i]).MountOption?
  {
    hide Classify;
    if tokens != [] { OptionTokensArePlain(tokens[..|tokens| - 1]); }
  }

  lemma {:induction false} TokensOfJoined(tokens: seq<string>)
    requires PlainTokens(tokens)
    ensures Tokens(Joined(tokens)) == tokens
  {
    if tokens == [] {
      SplitWhole("", ',');
    } else if |tokens| == 1 {
      SplitWhole(tokens[0], ',');
      assert [tokens[0]][1..] == [] && tokens == [tokens[0]] && Paths.NonEmpty([]) == [];
      assert Paths.NonEmpty([tokens[0]]) == [tokens[0]] + [];
    } else {
      SplitHead(tokens[0], Joined(tokens[1..]), ',');
      TokensOfJoined(tokens[1..]);
      var rest := Split(Joined(tokens[1..]), ',');
      assert ([tokens[0]] + rest)[1..] == rest;
    }
  }

  lemma {:induction false} OptionsAreFixed(tokens: seq<string>)
    requires forall i | 0 <= i < |tokens| :: Classify(tokens[i]).MountOption?
    ensures OptionTokens(tokens) == tokens && AllBits(tokens) == 0 && !AsksReadOnly(tokens)
  {
    hide Classify;
    if tokens != [] {
      OptionsAreFixed(tokens[..|tokens| - 1]);
      assert tokens == tokens[..|tokens| - 1] + [tokens[|tokens| - 1]];
    }
  }

  /**
   The stored options are a normal form: processing them again yields the same options, in the
   same order, and asks for no flag.
   */
  lemma OptionsAreNormal(str: string)
    ensures var options := Joined(OptionTokens(Tokens(str)));
            && Tokens(options) == OptionTokens(Tokens(str))
            && Joined(OptionTokens(Tokens(options))) == options
            && AllBits(Tokens(options)) == 0 && !AsksReadOnly(Tokens(options))
  {
    hide Classify;
    SplitHasNone(str, ',');
    assert PlainTokens(Tokens(str));
    OptionTokensArePlain(Tokens(str));
    TokensOfJoined(OptionTokens(Tokens(str)));
    OptionsAreFixed(OptionTokens(Tokens(str)));
  }

  predicate Meets(bits: bv32, mask: bv32) { bits & mask != 0 }

  lemma MeetsOr(a: bv32, b: bv32, mask: bv32)
    ensures Meets(a | b, mask) <==> Meets(a, mask) || Meets(b, mask)
  {
    assert (a | b) & mask == (a & mask) | (b & mask);
  }

  lemma MeetsNothing(mask: bv32)
    ensures !Meets(0, mask)
  {
    assert (0 as bv32) & mask == 0;
  }

  predicate Names(token: string, mask: bv32) { Meets(FlagBits(Classify(token)), mask) }

  lemma LastTokenBits(tokens: seq<string>, mask: bv32)
    ensures tokens == [] ==> !Meets(AllBits(tokens), mask)
    ensures tokens != [] ==>
              (Meets(AllBits(tokens), mask) <==>
                 Meets(AllBits(tokens[..|tokens| - 1]), mask) || Names(tokens[|tokens| - 1], mask))
  {
    hide Classify, FlagBits, Meets;
    if tokens == [] {
      MeetsNothing(mask);
    } else {
      MeetsOr(AllBits(tokens[..|tokens| - 1]), FlagBits(Classify(tokens[|tokens| - 1])), mask);
    }
  }

  /** Exactly the flags that were named are set, bit by bit. */
  lemma {:induction false} BitsAreNamed(tokens: seq<string>, mask: bv32)
    ensures Meets(AllBits(tokens), mask) <==> exists i | 0 <= i < |tokens| :: Names(tokens[i], mask)
  {
    hide AllBits, Meets, Names;
    LastTokenBits(tokens, mask);
    if tokens != [] {
      var init := tokens[..|tokens| - 1];
      BitsAreNamed(init, mask);
      assert forall i | 0 <= i < |init| :: Names(init[i], mask) == Names(tokens[i], mask);
    }
  }

  /** Options keep their order and multiplicity: they are the list without the other tokens. */
  lemma {:induction false} OptionTokensMembers(tokens: seq<string>, t: string)
    ensures multiset(OptionTokens(tokens))[t] == if Classify(t).MountOption? then multiset(tokens)[t] else 0
  {
    hide Classify;
    if tokens != [] {
      OptionTokensMembers(tokens[..|tokens| - 1], t);
      assert tokens == tokens[..|tokens| - 1] + [tokens[|tokens| - 1]];
    }
  }

  // ---- Dropped tokens ----

  /** The ignored items without their '='. */
  const IGNORED_NAMES: seq<string> := ["defaults", "errors", "latemount", "sysfs_path"]

  lemma NameHasNoEquals(token: string)
    ensures '=' !in NameOf(token)
  {
  }

  lemma PrefixOfItem(name: string, i: nat)
    requires i < 4 && '=' !in name
    ensures StartsWith(IGNORED_ITEMS[i], name) <==> StartsWith(IGNORED_NAMES[i], name)
  {
    var item, short := IGNORED_ITEMS[i], IGNORED_NAMES[i];
    assert item == short || item == short + "=";
    if |name| <= |short| {
      assert item[..|name|] == short[..|name|];
    } else {
      assert item[..|item|] == item && (item == short + "=" ==> item[|short|] == '=');
    }
  }

  /**
   Exactly which tokens are dropped: those whose name is a beginning of the name of an ignored
   item. Only a token whose name is the whole name was meant to be.
   */
  lemma DroppedIff(token: string)
    ensures Classify(token) == Dropped <==>
            exists i | 0 <= i < |IGNORED_NAMES| :: StartsWith(IGNORED_NAMES[i], NameOf(token))
  {
    hide StartsWith, NameOf;
    NameHasNoEquals(token);
    forall i | 0 <= i < 4
      ensures StartsWith(IGNORED_ITEMS[i], NameOf(token)) <==> StartsWith(IGNORED_NAMES[i], NameOf(token))
    {
      PrefixOfItem(NameOf(token), i);
    }
  }

  /** So a one-letter token, and a token without a name, never become options. */
  lemma ShortTokensAreDropped()
    ensures Classify("e") == Dropped && Classify("=x") == Dropped
    ensures NameOf("e") !in IGNORED_NAMES && NameOf("=x") !in IGNORED_NAMES
  {
    assert NameOf("e") == "e" && NameOf("=x") == "";
    DroppedIff("e");
    DroppedIff("=x");
    assert IGNORED_NAMES[1][..1] == "e" && IGNORED_NAMES[1][..0] == "";
    assert StartsWith(IGNORED_NAMES[1], "e") && StartsWith(IGNORED_NAMES[1], "");
    assert forall i | 0 <= i < |IGNORED_NAMES| :: 1 < |IGNORED_NAMES[i]|;
  }

  // ---- The table ----

  /** Where a name stands in the table, by its length, first and last letter. */
  function Place(name: string): nat {
    if name == "" then 15
    else
      var first, last := name[0], name[|name| - 1];
      if |name| == 2 then (if last == 'o' then 5 else 6)
      else if |name| == 3 then 9
      else if |name| == 4 then (if first == 'b' then 8 else 14)
      else if |name| == 5 then (if first == 'n' then 3 else 12)
      else if |name| == 6 then (if first == 's' then 13 else if last == 'c' then 1 else 2)
      else if |name| == 7 then (if first == 'n' then 0 else if first == 'r' then 7 else 11)
      else if first == 'n' then 4 else 10
  }

  lemma PlaceIsIndex(k: nat)
    requires k < |MOUNT_FLAGS|
    ensures Place(MOUNT_FLAGS[k].name) == k
  {
  }

  /** No name of the table has an '=', and none is the beginning of an ignored one. */
  lemma FlagNamesAreKept(k: nat)
    requires k < |MOUNT_FLAGS|
    ensures '=' !in MOUNT_FLAGS[k].name && 2 <= |MOUNT_FLAGS[k].name|
    ensures MOUNT_FLAGS[k].name[0] != 'd' && MOUNT_FLAGS[k].name[0] != 'e' && MOUNT_FLAGS[k].name[0] != 'l'
    ensures var name := MOUNT_FLAGS[k].name;
            name[0] == 's' ==> name[1] != 'y' || (2 < |name| && name[2] != 's')
  {
  }

  lemma NoIgnoredBeginning(i: nat, name: string)
    requires i < 4 && 2 <= |name| && name[0] != 'd' && name[0] != 'e' && name[0] != 'l'
    requires name[0] == 's' ==> name[1] != 'y' || (2 < |name| && name[2] != 's')
    ensures !StartsWith(IGNORED_NAMES[i], name)
  {
    var item := IGNORED_NAMES[i];
    if |name| <= |item| {
      assert item[..|name|][0] == item[0] && item[..|name|][1] == item[1];
      assert 2 < |name| ==> item[..|name|][2] == item[2];
    }
  }

  lemma PlainName(name: string)
    requires '=' !in name
    ensures NameOf(name) == name && !HasEquals(name)
  {
    assert name[..|name|] == name;
    FindUnique(name, '=', |name|);
  }

  lemma NamedFlag(k: nat)
    requires k < |MOUNT_FLAGS|
    ensures Classify(MOUNT_FLAGS[k].name) == MountFlag(MOUNT_FLAGS[k].bits)
  {
    hide NameOf, Place;
    var name := MOUNT_FLAGS[k].name;
    FlagNamesAreKept(k);
    PlainName(name);
    DroppedIff(name);
    forall i | 0 <= i < 4 ensures !StartsWith(IGNORED_NAMES[i], name) { NoIgnoredBeginning(i, name); }
    var f := FlagOf(name);
    var j :| 0 <= j < |MOUNT_FLAGS| && MOUNT_FLAGS[j] == f.value;
    PlaceIsIndex(j);
    PlaceIsIndex(k);
  }

  /** The bits of each flag, as the kernel numbers them. */
  lemma FlagTable()
    ensures Classify("noatime") == MountFlag(0x400) && Classify("noexec") == MountFlag(0x8)
    ensures Classify("nosuid") == MountFlag(0x2) && Classify("nodev") == MountFlag(0x4)
    ensures Classify("nodiratime") == MountFlag(0x800) && Classify("remount") == MountFlag(0x20)
    ensures Classify("ro") == MountFlag(0x1) && Classify("rw") == MountFlag(0)
    ensures Classify("bind") == MountFlag(0x1000) && Classify("rec") == MountFlag(0x4000)
    ensures Classify("unbindable") == MountFlag(0x2_0000) && Classify("private") == MountFlag(0x4_0000)
    ensures Classify("slave") == MountFlag(0x8_0000) && Classify("shared") == MountFlag(0x10_0000)
    ensures Classify("sync") == MountFlag(0x10)
    ensures forall token :: Classify(token).MountFlag? ==> exists i | 0 <= i < 15 :: MOUNT_FLAGS[i].name == token
  {
    hide Classify;
    NamedFlag(0); NamedFlag(1); NamedFlag(2); NamedFlag(3); NamedFlag(4);
    NamedFlag(5); NamedFlag(6); NamedFlag(7); NamedFlag(8); NamedFlag(9);
    NamedFlag(10); NamedFlag(11); NamedFlag(12); NamedFlag(13); NamedFlag(14);
    forall token | Classify(token).MountFlag? ensures exists i | 0 <= i < 15 :: MOUNT_FLAGS[i].name == token {
      FlagIsNamed(token);
    }
  }

  lemma FlagIsNamed(token: string)
    requires Classify(token).MountFlag?
    ensures exists i | 0 <= i < 15 :: MOUNT_FLAGS[i].name == token
  {
    hide Ignored;
    var j :| 0 <= j < |MOUNT_FLAGS| && MOUNT_FLAGS[j] == FlagOf(token).value;
    assert MOUNT_FLAGS[j].name == token;
  }
}
