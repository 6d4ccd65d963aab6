/** DataManager: three stores of settings that answer like one map. */
module Data {
  import opened Common
  import opened Settings

  /** The contents of mConst, mPersist and mData. */
  datatype Tiers = Tiers(consts: Store, persist: Store, data: Store)

  /** Constants hide persistent values, which hide volatile ones. */
  function Lookup(t: Tiers, name: Text): Option<Text> {
    if name in t.consts then Some(t.consts[name])
    else if name in t.persist then Some(t.persist[name])
    else if name in t.data then Some(t.data[name])
    else None
  }

  predicate Accepts(t: Tiers, name: Text) { Settable(name) && name !in t.consts }

  /** SetValue on the stores: a name that is persistent once stays persistent. */
  function Set(t: Tiers, name: Text, value: Text, persist: bool): Tiers {
    if !Accepts(t, name) then t
    else if persist || name in t.persist then t.(persist := t.persist[name := value])
    else t.(data := t.data[name := value])
  }

  datatype Op = Op(name: Text, value: Text, persist: bool)

  function Run(t: Tiers, ops: seq<Op>): Tiers {
    if ops == [] then t else
      var op := ops[|ops| - 1];
      Set(Run(t, ops[..|ops| - 1]), op.name, op.value, op.persist)
  }

  /** The value of the last call for a name. */
  function LastSet(ops: seq<Op>, name: Text): Option<Text> {
    if ops == [] then None
    else if ops[|ops| - 1].name == name then Some(ops[|ops| - 1].value)
    else LastSet(ops[..|ops| - 1], name)
  }

  /**
   Any sequence of calls with any mixture of persist flags behaves like one map: a name that
   can be set answers with its last value, every other name, constants included, with its old one.
   */
  lemma {:induction false} RunIsOneMap(t: Tiers, ops: seq<Op>, name: Text)
    ensures Run(t, ops).consts == t.consts
    ensures Lookup(Run(t, ops), name) ==
            if Accepts(t, name) && LastSet(ops, name).Some? then LastSet(ops, name) else Lookup(t, name)
  {
    if ops != [] { RunIsOneMap(t, ops[..|ops| - 1], name); }
  }

  predicate Persists(ops: seq<Op>, name: Text) { exists i | 0 <= i < |ops| :: ops[i].name == name && ops[i].persist }

  /** Exactly the names that were ever set as persistent are in the store that is saved. */
  lemma {:induction false} PersistenceSticks(t: Tiers, ops: seq<Op>, name: Text)
    ensures name in Run(t, ops).persist <==> name in t.persist || (Accepts(t, name) && Persists(ops, name))
  {
    if ops != [] {
      var init, op := ops[..|ops| - 1], ops[|ops| - 1];
      PersistenceSticks(t, init, name);
      RunIsOneMap(t, init, name);
      assert forall i | 0 <= i < |init| :: init[i] == ops[i];
      assert Persists(ops, name) <==> Persists(init, name) || (op.name == name && op.persist) by {
        if Persists(init, name) {
          var i :| 0 <= i < |init| && init[i].name == name && init[i].persist;
          assert ops[i].name == name && ops[i].persist;
        }
        if op.name == name && op.persist { assert ops[|ops| - 1].name == name && ops[|ops| - 1].persist; }
      }
    }
  }

  // ---- Defaults ----

  datatype Default =
    | ToConst(name: Text, value: Text)
    | ToPersist(name: Text, value: Text)
    | ToData(name: Text, value: Text)

  function InstallOne(t: Tiers, d: Default): Tiers {
    match d
    case ToConst(n, v) => t.(consts := StoreSet(t.consts, true, n, v))
    case ToPersist(n, v) => t.(persist := StoreSet(t.persist, false, n, v))
    case ToData(n, v) => t.(data := StoreSet(t.data, false, n, v))
  }

  function Install(t: Tiers, defaults: seq<Default>): Tiers {
    if defaults == [] then t
    else InstallOne(Install(t, defaults[..|defaults| - 1]), defaults[|defaults| - 1])
  }

  const EMPTY: Tiers := Tiers(map[], map[], map[])

  /** Where a default is put. */
  function StoreOf(t: Tiers, d: Default): Store {
    match d
    case ToConst(_, _) => t.consts
    case ToPersist(_, _) => t.persist
    case ToData(_, _) => t.data
  }

  predicate SameStore(d: Default, e: Default) {
    (d.ToConst? <==> e.ToConst?) && (d.ToPersist? <==> e.ToPersist?)
  }

  lemma InstalledOne(t: Tiers, d: Default, e: Default)
    ensures var m, m' := StoreOf(t, e), StoreOf(InstallOne(t, d), e);
            m' == if SameStore(d, e) && d.name != [] && !('0' as int <= d.name[0] <= '9' as int)
                     && !(d.ToConst? && d.name in m)
                  then m[d.name := d.value] else m
  {
  }

  lemma {:induction false} DefaultsOnly(defaults: seq<Default>, e: Default)
    requires e.name in StoreOf(Install(EMPTY, defaults), e)
    ensures exists i | 0 <= i < |defaults| :: SameStore(defaults[i], e) && defaults[i].name == e.name
  {
    if defaults != [] {
      var n := |defaults| - 1;
      var init, last := defaults[..n], defaults[n];
      InstalledOne(Install(EMPTY, init), last, e);
      if e.name in StoreOf(Install(EMPTY, init), e) {
        DefaultsOnly(init, e);
        var i :| 0 <= i < n && SameStore(init[i], e) && init[i].name == e.name;
        assert defaults[i] == init[i];
      } else {
        assert SameStore(defaults[n], e) && defaults[n].name == e.name;
      }
    }
  }

  /** A constant keeps its first default, any other name the last one for its store. */
  lemma {:induction false} DefaultsMeaning(defaults: seq<Default>, k: nat)
    requires k < |defaults| && defaults[k].name != [] && !('0' as int <= defaults[k].name[0] <= '9' as int)
    requires var d := defaults[k];
             if d.ToConst?
             then forall i | 0 <= i < k && SameStore(defaults[i], d) :: defaults[i].name != d.name
             else forall i | k < i < |defaults| && SameStore(defaults[i], d) :: defaults[i].name != d.name
    ensures var d, m := defaults[k], StoreOf(Install(EMPTY, defaults), defaults[k]);
            d.name in m && m[d.name] == d.value
  {
    hide Install;
    var n, d := |defaults| - 1, defaults[k];
    var init, last := defaults[..n], defaults[n];
    InstallLast(defaults);
    InstalledOne(Install(EMPTY, init), last, d);
    if k < n {
      DefaultsMeaning(init, k);
      assert !d.ToConst? && SameStore(last, d) ==> last.name != d.name;
    } else if d.ToConst? && d.name in Install(EMPTY, init).consts {
      DefaultsOnly(init, d);
      assert false;
    }
  }

  lemma InstallLast(defaults: seq<Default>)
    requires defaults != []
    ensures var n := |defaults| - 1; Install(EMPTY, defaults) == InstallOne(Install(EMPTY, defaults[..n]), defaults[n])
  {
  }

  const FILE_VERSION: nat := 0x00010010

  /** A restart: empty stores, the defaults of the new start, then the settings file. */
  function Restarted(defaults: seq<Default>, file: Text, stale: nat -> byte): Tiers {
    var t := Install(EMPTY, defaults);
    t.(persist := LoadFile(file, FILE_VERSION, stale, t.persist))
  }

  /**
   Persistent settings survive a restart: after any calls, saving, clearing, installing any
   defaults and loading gives a saved name the value of the last call for it (or the value it
   had before the calls), unless the new start makes it a constant or the name is at or behind
   the first entry, in key order, that the loader refuses; then it only has the new default.
   The calls that follow, such as those for the storage path with which LoadValues ends, only
   change their own names.
   */
  lemma SettingsSurviveRestart(
    t: Tiers, ops: seq<Op>, file: Text, defaults: seq<Default>, stale: nat -> byte, later: seq<Op>, name: Text)
    requires var saved := Run(t, ops).persist;
             IsSaved(file, FILE_VERSION, saved) && Clean(saved) && NothingWraps(saved)
    requires name in Run(t, ops).persist && name !in t.consts && name !in Install(EMPTY, defaults).consts
    requires Settable(name) && LastSet(later, name).None?
    ensures Lookup(Run(Restarted(defaults, file, stale), later), name) ==
            if name !in BeforeLong(Run(t, ops).persist) then Lookup(Install(EMPTY, defaults), name)
            else if LastSet(ops, name).Some? then LastSet(ops, name) else Lookup(t, name)
  {
    hide LoadFile, IsSaved, Clean, NothingWraps, BeforeLong, Install;
    var saved, installed := Run(t, ops).persist, Install(EMPTY, defaults);
    SaveThenLoad(saved, file, installed.persist, FILE_VERSION, stale);
    RunIsOneMap(t, ops, name);
    RunIsOneMap(Restarted(defaults, file, stale), later, name);
    assert Lookup(Run(t, ops), name) == Some(saved[name]);
    if name in BeforeLong(saved) { BeforeLongIsReadable(saved, name); }
  }

  // ---- The manager ----

  const PROPERTY_PREFIX: Text := [112, 114, 111, 112, 101, 114, 116, 121, 46]  // "property."

  predicate IsProperty(name: Text) { 9 < |name| && name[..9] == PROPERTY_PREFIX }

  /** The names that start with "property." and go on. */
  lemma PropertyIff(name: Text)
    ensures IsProperty(name) <==>
            && 9 < |name|
            && forall i | 0 <= i < 9 :: name[i] == "property."[i] as int
  {
    assert forall i | 0 <= i < 9 :: PROPERTY_PREFIX[i] == "property."[i] as int;
    assert 9 < |name| ==> forall i | 0 <= i < 9 :: name[..9][i] == name[i];
  }

  /** The name that GetValue looks up: surrounding percent signs are removed. */
  function Stripped(name: Text): Text {
    if 2 < |name| && name[0] == 37 && name[|name| - 1] == 37 then name[1..|name| - 1] else name
  }

  class DataManager {
    const mConst: InfoManager
    const mPersist: InfoManager
    const mData: InfoManager
    const defaults: seq<Default>
    var mInitialized: bool

    predicate Valid()
      reads this, mConst, mPersist, mData
    {
      && mConst != mPersist && mConst != mData && mPersist != mData
      && (mInitialized ==> mConst.isConst) && !mPersist.isConst && !mData.isConst
    }

    function GetTiers(): Tiers
      reads mConst, mPersist, mData
    {
      Tiers(mConst.mValues, mPersist.mValues, mData.mValues)
    }

    /** The stores as the next call will see them. */
    function Ready(): Tiers
      reads this, mConst, mPersist, mData
    {
      if mInitialized then GetTiers() else Install(GetTiers(), defaults)
    }

    constructor (d: seq<Default>)
      ensures Valid() && !mInitialized && GetTiers() == EMPTY && defaults == d
      ensures fresh(mConst) && fresh(mPersist) && fresh(mData)
    {
      mConst := new InfoManager();
      mPersist := new InfoManager();
      mData := new InfoManager();
      defaults, mInitialized := d, false;
    }

    method SetDefaultValues()
      requires Valid()
      modifies this, mConst, mPersist, mData
      ensures Valid() && mInitialized && GetTiers() == Install(old(GetTiers()), defaults)
    {
      mConst.SetConst();
      mInitialized := true;
      var i := 0;
      while i < |defaults|
        invariant 0 <= i <= |defaults| && Valid() && mInitialized
        invariant GetTiers() == Install(old(GetTiers()), defaults[..i])
      {
        assert defaults[..i + 1][..i] == defaults[..i];
        match defaults[i] {
          case ToConst(n, v) => var r := mConst.SetValue(n, v);
          case ToPersist(n, v) => var r := mPersist.SetValue(n, v);
          case ToData(n, v) => var r := mData.SetValue(n, v);
        }
        i := i + 1;
      }
      assert defaults[..i] == defaults;
    }

    /** `propertyResult` is what property_set returns when the name is a property. */
    method SetValue(name: Text, value: Text, persist: bool, propertyResult: int) returns (ret: int)
      requires Valid()
      modifies this, mConst, mPersist, mData
      ensures Valid() && mInitialized
      ensures GetTiers() == if IsProperty(name) then old(Ready()) else Set(old(Ready()), name, value, persist)
      ensures !IsProperty(name) ==>
                ret == if name == [] || '0' as int <= name[0] <= '9' as int || name in old(Ready()).consts
                       then -1 else 0
      ensures !IsProperty(name) && ret == -1 ==> GetTiers() == old(Ready())
      ensures IsProperty(name) ==> ret == propertyResult
    {
      if !mInitialized {
        SetDefaultValues();
      }
      if IsProperty(name) {
        return propertyResult;
      }
      if name == [] || 0x30 <= name[0] <= 0x39 {
        return -1;
      }
      var constChk, c := mConst.GetValue(name);
      if constChk == 0 {
        return -1;
      }
      if persist {
        var r := mPersist.SetValue(name, value);
      } else {
        var persistChk, p := mPersist.GetValue(name);
        if persistChk == 0 {
          var r := mPersist.SetValue(name, value);
        } else {
          var r := mData.SetValue(name, value);
        }
      }
      return 0;
    }

    /** `magic` is GetMagicValue's answer for the stripped name, `property` the value of a property. */
    method GetValue(name: Text, magic: Option<Text>, property: Text) returns (ret: int, value: Text)
      requires Valid()
      modifies this, mConst, mPersist, mData
      ensures Valid() && mInitialized && GetTiers() == old(Ready())
      ensures magic.Some? ==> ret == 0 && value == magic.value
      ensures magic.None? && IsProperty(Stripped(name)) ==> ret == 0 && value == property
      ensures magic.None? && !IsProperty(Stripped(name)) ==>
                var t, n := old(Ready()), Stripped(name);
                if n in t.consts then ret == 0 && value == t.consts[n]
                else if n in t.persist then ret == 0 && value == t.persist[n]
                else if n in t.data then ret == 0 && value == t.data[n]
                else ret == -1
    {
      var localStr := name;
      if !mInitialized {
        SetDefaultValues();
      }
      if 2 < |localStr| && localStr[0] == 37 && localStr[|localStr| - 1] == 37 {
        localStr := localStr[1..];
        localStr := localStr[..|localStr| - 1];
        assert localStr == Stripped(name);
      }
      if magic.Some? {
        return 0, magic.value;
      }
      if IsProperty(localStr) {
        return 0, property;
      }
      ret, value := mConst.GetValue(localStr);
      if ret == 0 {
        return;
      }
      ret, value := mPersist.GetValue(localStr);
      if ret == 0 {
        return;
      }
      ret, value := mData.GetValue(localStr);
    }

    method ResetDefaults()
      requires Valid()
      modifies this, mConst, mPersist, mData
      ensures Valid() && mInitialized && GetTiers() == Install(EMPTY, defaults)
    {
      mPersist.Clear();
      mData.Clear();
      mConst.Clear();
      SetDefaultValues();
    }

    /** The part of LoadValues that fills the stores; `file` is the settings file, if it exists. */
    method LoadValues(file: Option<Text>, stale: nat -> byte)
      requires Valid()
      modifies this, mConst, mPersist, mData
      ensures Valid() && mInitialized
      ensures var t := old(Ready());
              GetTiers() == if file.None? then t
                            else t.(persist := LoadFile(file.value, FILE_VERSION, stale, t.persist))
    {
      if !mInitialized {
        SetDefaultValues();
      }
      mPersist.SetFileVersion(FILE_VERSION);
      var ret := mPersist.LoadValues(file, stale);
    }

    method SaveValues(opens: bool) returns (file: Option<Text>)
      requires Valid()
      modifies mPersist`fileVersion
      ensures Valid() && (file.Some? <==> opens)
      ensures opens ==> IsSaved(file.value, 0x0001_0010, mPersist.mValues)
    {
      mPersist.SetFileVersion(FILE_VERSION);
      var ret;
      ret, file := mPersist.SaveValues(opens);
    }
  }

  /** A restart of the real objects computes what Restarted says. */
  method Restart(dm: DataManager, stale: nat -> byte) returns (file: Text)
    requires dm.Valid()
    modifies dm, dm.mConst, dm.mPersist, dm.mData
    ensures dm.Valid() && IsSaved(file, FILE_VERSION, old(dm.mPersist.mValues))
    ensures dm.GetTiers() == Restarted(dm.defaults, file, stale)
  {
    hide Install, LoadFile, IsSaved;
    var saved := dm.SaveValues(true);
    file := saved.value;
    dm.ResetDefaults();
    dm.LoadValues(saved, stale);
  }
}
