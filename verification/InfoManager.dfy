/** InfoManager: a map of settings and the length-prefixed file it is saved in. */
module Settings {
  import opened Common

  type Text = Bytes

  type Store = map<Text, Text>

  // ---- The order of std::map<string> ----

  predicate Less(a: Text, b: Text) {
    b != [] && (a == [] || a[0] < b[0] || (a[0] == b[0] && Less(a[1..], b[1..])))
  }

  lemma {:induction false} LessTotal(a: Text, b: Text)
    ensures a == b || Less(a, b) || Less(b, a)
    ensures !(Less(a, b) && Less(b, a)) && !Less(a, a)
    decreases |a|
  {
    if a != [] && b != [] {
      LessTotal(a[1..], b[1..]);
      if a[0] == b[0] && a[1..] == b[1..] { assert a == [a[0]] + a[1..] == b; }
    }
    if a != [] { LessTotal(a[1..], a[1..]); }
  }

  lemma {:induction false} LessTransitive(a: Text, b: Text, c: Text)
    requires Less(a, b) && Less(b, c)
    ensures Less(a, c)
    decreases |a|
  {
    if a != [] && a[0] == b[0] && b[0] == c[0] { LessTransitive(a[1..], b[1..], c[1..]); }
  }

  /** The order by the first byte that differs; a beginning comes before what it begins. */
  lemma {:induction false} LessIff(a: Text, b: Text)
    ensures Less(a, b) <==> exists i | 0 <= i < |b| && i <= |a| :: a[..i] == b[..i] && (i == |a| || a[i] < b[i])
    decreases |a|
  {
    if a != [] && b != [] && a[0] == b[0] {
      LessIff(a[1..], b[1..]);
      if Less(a[1..], b[1..]) {
        var i :| 0 <= i < |b| - 1 && i <= |a| - 1
                 && a[1..][..i] == b[1..][..i] && (i == |a| - 1 || a[1..][i] < b[1..][i]);
        assert a[..i + 1] == [a[0]] + a[1..][..i] && b[..i + 1] == [b[0]] + b[1..][..i];
      }
      if i :| 0 <= i < |b| && i <= |a| && a[..i] == b[..i] && (i == |a| || a[i] < b[i]) {
        assert i != 0;
        assert a[1..][..i - 1] == a[..i][1..] && b[1..][..i - 1] == b[..i][1..];
        assert i - 1 == |a| - 1 || a[1..][i - 1] < b[1..][i - 1];
      }
    } else if b != [] {
      assert a[..0] == b[..0];
      assert forall i | 0 < i <= |a| && i < |b| :: a[..i][0] == a[0] && b[..i][0] == b[0];
    }
  }

  /** The keys of a map in iteration order. */
  predicate InOrder(ks: seq<Text>, keys: set<Text>) {
    && (forall i, j | 0 <= i < j < |ks| :: Less(ks[i], ks[j]))
    && (forall k | k in ks :: k in keys) && (forall k | k in keys :: k in ks)
  }

  lemma {:induction false} LeastExists(keys: set<Text>) returns (least: Text)
    requires keys != {}
    ensures least in keys && forall k | k in keys :: k == least || Less(least, k)
    decreases |keys|
  {
    var x :| x in keys;
    var rest := keys - {x};
    least := x;
    if rest != {} {
      var y := LeastExists(rest);
      LessTotal(x, y);
      if Less(y, x) { least := y; }
      forall k | k in keys ensures k == least || Less(least, k) {
        if k in rest && k != y && least == x { LessTransitive(x, y, k); }
      }
    }
  }

  lemma {:induction false} OrderExists(keys: set<Text>) returns (ks: seq<Text>)
    ensures InOrder(ks, keys)
    decreases |keys|
  {
    if keys == {} {
      ks := [];
    } else {
      var least := LeastExists(keys);
      var rest := OrderExists(keys - {least});
      ks := [least] + rest;
      forall i, j | 0 <= i < j < |ks| ensures Less(ks[i], ks[j]) {
        if i == 0 { assert ks[j] == rest[j - 1] && ks[j] in keys - {least}; }
      }
    }
  }

  lemma OrderIsWithin(ks: seq<Text>, m: Store)
    requires InOrder(ks, m.Keys)
    ensures forall i | 0 <= i < |ks| :: ks[i] in m
  {
    forall i | 0 <= i < |ks| ensures ks[i] in m { assert ks[i] in ks; }
  }

  // ---- The file format ----

  const SHORT: nat := 0x1_0000
  const FIELD_LIMIT: nat := 512

  function Le16(n: nat): Text
    requires n < SHORT
  {
    [n % 256, n / 256]
  }

  function Le32(n: nat): Text
    requires n < SHORT * SHORT
  {
    Le16(n % SHORT) + Le16(n / SHORT)
  }

  /** The length that is stored for a string: its own and one for the NUL, in an unsigned short. */
  function FieldLength(s: Text): nat { (|s| % SHORT + 1) % SHORT }

  /** As many bytes of the C string as that length says. */
  function Written(s: Text): Text { (s + [0])[..FieldLength(s)] }

  function SaveField(s: Text): Text { Le16(FieldLength(s)) + Written(s) }

  function SaveEntries(ks: seq<Text>, m: Store): Text
    requires forall i | 0 <= i < |ks| :: ks[i] in m
  {
    if ks == [] then [] else SaveField(ks[0]) + SaveField(m[ks[0]]) + SaveEntries(ks[1..], m)
  }

  /** A version of 0 is not written. */
  function SavedVersion(version: nat): Text
    requires version < SHORT * SHORT
  {
    if version == 0 then [] else Le32(version)
  }

  /** What SaveValues writes: the version and every entry of `m` in key order. */
  ghost predicate IsSaved(file: Text, version: nat, m: Store)
    requires version < SHORT * SHORT
  {
    exists ks: seq<Text> :: InOrder(ks, m.Keys) && (forall i | 0 <= i < |ks| :: ks[i] in m)
      && file == SavedVersion(version) + SaveEntries(ks, m)
  }

  function CString(s: Text): Text { s[..FindFrom(s, 0, 0)] }

  /**
   One field: refused from 512 bytes on. The terminator is put one place too far, so a field
   without a NUL of its own is followed by whatever the buffer held there.
   */
  function LoadField(bs: Text, stale: nat -> byte): Option<(Text, Text)> {
    if |bs| < 2 then None else
      var length: nat := bs[0] as int + 256 * (bs[1] as int);
      if FIELD_LIMIT <= length || |bs| < 2 + length then None
      else Some((CString(bs[2..2 + length] + [stale(|bs|)]), bs[2 + length..]))
  }

  lemma LoadFieldShrinks(bs: Text, stale: nat -> byte)
    ensures LoadField(bs, stale).Some? ==> |LoadField(bs, stale).value.1| < |bs|
  {
  }

  /** Entries are taken until one cannot be read. */
  function LoadEntries(bs: Text, stale: nat -> byte, m: Store): Store
    decreases |bs|
  {
    LoadFieldShrinks(bs, stale);
    match LoadField(bs, stale)
    case None => m
    case Some(name) =>
      LoadFieldShrinks(name.1, stale);
      match LoadField(name.1, stale)
      case None => m
      case Some(value) => LoadEntries(value.1, stale, m[name.0 := value.0])
  }

  function LoadFile(file: Text, version: nat, stale: nat -> byte, m: Store): Store
    requires version < SHORT * SHORT
  {
    if version == 0 then LoadEntries(file, stale, m)
    else if |file| < 4 || file[..4] != Le32(version) then m
    else LoadEntries(file[4..], stale, m)
  }

  /** SetValue on one store: odd names are refused, and a constant store keeps its first value. */
  predicate Settable(name: Text) { name != [] && !(0x30 <= name[0] <= 0x39) }

  function StoreSet(m: Store, isConst: bool, name: Text, value: Text): Store {
    if !Settable(name) || (name in m && isConst) then m else m[name := value]
  }

  class InfoManager {
    var mValues: Store
    var fileVersion: nat
    var isConst: bool

    constructor ()
      ensures mValues == map[] && fileVersion == 0 && !isConst
    {
      mValues, fileVersion, isConst := map[], 0, false;
    }

    method SetFileVersion(version: nat)
      modifies this`fileVersion
      ensures fileVersion == version
    {
      fileVersion := version;
    }

    method SetConst()
      modifies this`isConst
      ensures isConst
    {
      isConst := true;
    }

    method Clear()
      modifies this`mValues
      ensures mValues == map[]
    {
      mValues := map[];
    }

    /** Reads one field of the stream `bs`. */
    method ReadField(bs: Text, stale: nat -> byte) returns (field: Option<(Text, Text)>)
      ensures field == LoadField(bs, stale)
    {
      if |bs| < 2 {
        return None;
      }
      var length: nat := bs[0] as int + 256 * (bs[1] as int);
      if FIELD_LIMIT <= length {
        return None;
      }
      if |bs| < 2 + length {
        return None;
      }
      return Some((CString(bs[2..2 + length] + [stale(|bs|)]), bs[2 + length..]));
    }

    method LoadValues(file: Option<Text>, stale: nat -> byte) returns (ret: int)
      requires fileVersion < SHORT * SHORT
      modifies this`mValues
      ensures ret == if file.None? then -1 else 0
      ensures mValues == if file.None? then old(mValues)
                         else LoadFile(file.value, fileVersion, stale, old(mValues))
    {
      hide LoadField;
      if file.None? {
        return -1;
      }
      var rest := file.value;
      if fileVersion != 0 {
        if |rest| < 4 || rest[..4] != Le32(fileVersion) {
          return 0;
        }
        rest := rest[4..];
      }
      ghost var start := rest;
      while true
        invariant LoadEntries(rest, stale, mValues) == LoadEntries(start, stale, old(mValues))
        decreases |rest|
      {
        LoadFieldShrinks(rest, stale);
        var name := ReadField(rest, stale);
        if name.None? {
          break;
        }
        LoadFieldShrinks(name.value.1, stale);
        var value := ReadField(name.value.1, stale);
        if value.None? {
          break;
        }
        mValues := mValues[name.value.0 := value.value.0];
        rest := value.value.1;
      }
      return 0;
    }

    /** Writes every entry in key order, if the file has a name and can be opened. */
    method SaveValues(opens: bool) returns (ret: int, out: Option<Text>)
      requires fileVersion < SHORT * SHORT
      ensures ret == if opens then 0 else -1
      ensures out.Some? <==> opens
      ensures opens ==> IsSaved(out.value, fileVersion, mValues)
    {
      hide SaveField, Le32, InOrder, IsSaved;
      if !opens {
        return -1, None;
      }
      ghost var order := OrderExists(mValues.Keys);
      var keys :| InOrder(keys, mValues.Keys);
      OrderIsWithin(keys, mValues);
      var file := if fileVersion == 0 then [] else Le32(fileVersion);
      var i := 0;
      while i < |keys|
        invariant 0 <= i <= |keys|
        invariant file + SaveEntries(keys[i..], mValues) == SavedVersion(fileVersion) + SaveEntries(keys, mValues)
      {
        assert keys[i..][1..] == keys[i + 1..] && keys[i..][0] == keys[i];
        file := file + SaveField(keys[i]);
        file := file + SaveField(mValues[keys[i]]);
        i := i + 1;
      }
      assert keys[i..] == [];
      OrderIsSaved(file, fileVersion, mValues, keys);
      return 0, Some(file);
    }

    method GetValue(varName: Text) returns (ret: int, value: Text)
      ensures ret == if varName in mValues then 0 else -1
      ensures varName in mValues ==> value == mValues[varName]
    {
      value := [];
      if varName !in mValues {
        return -1, value;
      }
      return 0, mValues[varName];
    }

    method SetValue(varName: Text, value: Text) returns (ret: int)
      modifies this`mValues
      ensures mValues == StoreSet(old(mValues), isConst, varName, value)
      ensures varName == [] || '0' as int <= varName[0] <= '9' as int ==> ret == -1 && mValues == old(mValues)
      ensures varName != [] && !('0' as int <= varName[0] <= '9' as int) ==>
                ret == 0 && mValues == old(mValues)[varName := if varName in old(mValues) && isConst
                                                               then old(mValues)[varName] else value]
    {
      if varName == [] || 0x30 <= varName[0] <= 0x39 {
        return -1;
      }
      if varName !in mValues || !isConst {
        mValues := mValues[varName := value];
      }
      return 0;
    }
  }

  // ---- Loading what was saved ----

  /** The longest field that can be read back has 510 bytes. */
  predicate Short(s: Text) { |s| <= 510 }

  predicate NulFree(s: Text) { 0 !in s }

  // ---- One field ----

  /** What a field that is not refused is read as, when the buffer held `leftover` behind it. */
  function Reread(s: Text, leftover: byte): Text { CString(Written(s) + [leftover]) }

  /** Loading this field does not depend on the leftover: it is refused, or brings a NUL of its own. */
  predicate Settled(s: Text) { FIELD_LIMIT <= FieldLength(s) || 0 in Written(s) }

  /** For every string: its field is refused, or read back from what was written of it. */
  lemma FieldRoundTrip(s: Text, rest: Text, stale: nat -> byte)
    ensures LoadField(SaveField(s) + rest, stale) ==
            if FIELD_LIMIT <= FieldLength(s) then None else Some((Reread(s, stale(|SaveField(s) + rest|)), rest))
  {
    var bs, length := SaveField(s) + rest, FieldLength(s);
    assert bs == Le16(length) + (Written(s) + rest);
    assert bs[0] as int + 256 * (bs[1] as int) == length;
    if length < FIELD_LIMIT {
      assert bs[2..2 + length] == Written(s) && bs[2 + length..] == rest;
    }
  }

  lemma {:induction false} NulEnds(s: Text, c: byte)
    ensures 0 in s ==> CString(s + [c]) == CString(s)
    ensures 0 !in s && c != 0 ==> CString(s + [c]) == s + [c]
  {
    var f := FindFrom(s, 0, 0);
    if 0 in s {
      assert forall i | 0 <= i < |s| :: s[i] == (s + [c])[i];
      assert FindFrom(s + [c], 0, 0) == f && s[..f] == (s + [c])[..f];
    } else if c != 0 {
      assert FindFrom(s + [c], 0, 0) == |s| + 1;
    }
  }

  lemma SettledReread(s: Text, c: byte, d: byte)
    requires FieldLength(s) < FIELD_LIMIT
    ensures Settled(s) ==> Reread(s, c) == Reread(s, d)
    ensures !Settled(s) && c != d && c != 0 && d != 0 ==> Reread(s, c) != Reread(s, d)
  {
    NulEnds(Written(s), c);
    NulEnds(Written(s), d);
    assert c != d ==> (Written(s) + [c])[|Written(s)|] != (Written(s) + [d])[|Written(s)|];
  }

  /** Exactly which saved fields load the same whatever the buffer held, for strings of every length. */
  lemma FieldIgnoresLeftoverIff(s: Text, rest: Text)
    ensures (forall a: nat -> byte, b: nat -> byte ::
               LoadField(SaveField(s) + rest, a) == LoadField(SaveField(s) + rest, b)) <==> Settled(s)
  {
    hide SaveField, Reread, Settled;
    forall a: nat -> byte, b: nat -> byte | Settled(s)
      ensures LoadField(SaveField(s) + rest, a) == LoadField(SaveField(s) + rest, b)
    {
      FieldReadsTwice(s, rest, a, b);
    }
    if !Settled(s) {
      var a: nat -> byte, b: nat -> byte := n => 1, n => 2;
      FieldReadsTwice(s, rest, a, b);
    }
  }

  lemma FieldReadsTwice(s: Text, rest: Text, a: nat -> byte, b: nat -> byte)
    ensures var bs := SaveField(s) + rest;
            && (Settled(s) ==> LoadField(bs, a) == LoadField(bs, b))
            && (!Settled(s) && a(|bs|) == 1 && b(|bs|) == 2 ==> LoadField(bs, a) != LoadField(bs, b))
  {
    hide SaveField, LoadField;
    FieldRoundTrip(s, rest, a);
    FieldRoundTrip(s, rest, b);
    if FieldLength(s) < FIELD_LIMIT { SettledReread(s, a(|SaveField(s) + rest|), b(|SaveField(s) + rest|)); }
  }

  /** A NUL-free string of up to 510 bytes is read back as it is, whatever the buffer held. */
  lemma ShortReread(s: Text, c: byte)
    requires Short(s) && NulFree(s)
    ensures FieldLength(s) < FIELD_LIMIT && Settled(s) && Reread(s, c) == s
  {
    assert Written(s) == s + [0] && (s + [0])[|s|] == 0;
    NulEnds(s + [0], c);
    assert FindFrom(s + [0], 0, 0) == |s|;
    assert (s + [0])[..|s|] == s;
  }

  lemma RereadIsShort(s: Text, c: byte)
    requires FieldLength(s) < FIELD_LIMIT
    ensures |Reread(s, c)| <= FIELD_LIMIT
  {
  }

  /** The bytes of the file: little-endian lengths that include the NUL, and a little-endian version. */
  lemma FileBytes(s: Text, version: nat)
    requires |s| < 65535 && 0 < version < 0x1_0000_0000
    ensures SaveField(s) == [(|s| + 1) % 256, (|s| + 1) / 256] + s + [0]
    ensures var v := SavedVersion(version);
            |v| == 4 && version == v[0] as int + 256 * v[1] as int + 0x1_0000 * v[2] as int + 0x100_0000 * v[3] as int
  {
    assert s + [0] == (s + [0])[..|s| + 1];
    var low, high := version % SHORT, version / SHORT;
    assert low == low % 256 + 256 * (low / 256) && high == high % 256 + 256 * (high / 256);
  }

  /** A field of a file that was cut inside it is refused. */
  lemma CutFieldIsRefused(s: Text, n: nat, stale: nat -> byte)
    requires n < |SaveField(s)|
    ensures LoadField(SaveField(s)[..n], stale) == None
  {
    var bs := SaveField(s)[..n];
    if 2 <= n {
      assert bs[0] == Le16(FieldLength(s))[0] && bs[1] == Le16(FieldLength(s))[1];
      assert bs[0] as int + 256 * (bs[1] as int) == FieldLength(s);
    }
  }

  // ---- Whole files ----

  datatype Entry = Entry(name: Text, value: Text)

  /** The entries a loader takes from a file, in order. */
  function Entries(bs: Text, stale: nat -> byte): seq<Entry>
    decreases |bs|
  {
    LoadFieldShrinks(bs, stale);
    match LoadField(bs, stale)
    case None => []
    case Some(name) =>
      LoadFieldShrinks(name.1, stale);
      match LoadField(name.1, stale)
      case None => []
      case Some(value) => [Entry(name.0, value.0)] + Entries(value.1, stale)
  }

  function Lay(m: Store, entries: seq<Entry>): Store
    decreases |entries|
  {
    if entries == [] then m else Lay(m[entries[0].name := entries[0].value], entries[1..])
  }

  lemma {:induction false} LoadingLays(bs: Text, stale: nat -> byte, m: Store)
    ensures LoadEntries(bs, stale, m) == Lay(m, Entries(bs, stale))
    decreases |bs|
  {
    hide LoadField;
    LoadFieldShrinks(bs, stale);
    var name := LoadField(bs, stale);
    if name.Some? {
      LoadFieldShrinks(name.value.1, stale);
      var value := LoadField(name.value.1, stale);
      if value.Some? {
        LoadingLays(value.value.1, stale, m[name.value.0 := value.value.0]);
        var e := Entry(name.value.0, value.value.0);
        assert ([e] + Entries(value.value.1, stale))[1..] == Entries(value.value.1, stale);
      }
    }
  }

  predicate Readable(k: Text, m: Store)
    requires k in m
  {
    FieldLength(k) < FIELD_LIMIT && FieldLength(m[k]) < FIELD_LIMIT
  }

  predicate Restorable(k: Text, m: Store)
    requires k in m
  {
    Short(k) && Short(m[k])
  }

  predicate Within(ks: seq<Text>, m: Store) { forall i | 0 <= i < |ks| :: ks[i] in m }

  /** The entries before the first one that cannot be read, each as it is read. */
  function Restored(ks: seq<Text>, m: Store, stale: nat -> byte): seq<Entry>
    requires Within(ks, m)
  {
    if ks == [] || !Readable(ks[0], m) then []
    else
      var k, v, rest := ks[0], m[ks[0]], SaveEntries(ks[1..], m);
      [Entry(Reread(k, stale(|SaveField(k) + (SaveField(v) + rest)|)), Reread(v, stale(|SaveField(v) + rest|)))]
      + Restored(ks[1..], m, stale)
  }

  /** For every map, strings of any length and content included, loading takes exactly those entries. */
  lemma {:induction false} EntriesRoundTrip(ks: seq<Text>, m: Store, stale: nat -> byte)
    requires Within(ks, m)
    ensures Entries(SaveEntries(ks, m), stale) == Restored(ks, m, stale)
  {
    hide SaveField, LoadField, Reread, FieldLength;
    if ks == [] {
      EmptyFile(stale);
    } else {
      var k, v, rest := ks[0], m[ks[0]], SaveEntries(ks[1..], m);
      FieldRoundTrip(k, SaveField(v) + rest, stale);
      FieldRoundTrip(v, rest, stale);
      assert SaveEntries(ks, m) == SaveField(k) + (SaveField(v) + rest);
      if Readable(k, m) { EntriesRoundTrip(ks[1..], m, stale); }
    }
  }

  lemma EmptyFile(stale: nat -> byte)
    ensures LoadField([], stale) == None
  {
  }

  /** How many entries are read. */
  function ReadableCount(ks: seq<Text>, m: Store): (n: nat)
    requires Within(ks, m)
    ensures n <= |ks| && (forall i | 0 <= i < n :: Readable(ks[i], m)) && (n < |ks| ==> !Readable(ks[n], m))
  {
    if ks == [] || !Readable(ks[0], m) then 0 else 1 + ReadableCount(ks[1..], m)
  }

  predicate AllSettled(ks: seq<Text>, m: Store)
    requires Within(ks, m)
  {
    forall i | 0 <= i < ReadableCount(ks, m) :: Settled(ks[i]) && Settled(m[ks[i]])
  }

  lemma {:induction false} RestoredTwice(ks: seq<Text>, m: Store, a: nat -> byte, b: nat -> byte)
    requires Within(ks, m)
    ensures AllSettled(ks, m) ==> Restored(ks, m, a) == Restored(ks, m, b)
    ensures (forall n :: a(n) == 1 && b(n) == 2) && Restored(ks, m, a) == Restored(ks, m, b) ==> AllSettled(ks, m)
  {
    hide SaveField, Reread, FieldLength, Settled;
    if ks != [] && Readable(ks[0], m) {
      var k, v, rest := ks[0], m[ks[0]], SaveEntries(ks[1..], m);
      RestoredTwice(ks[1..], m, a, b);
      var x, y := |SaveField(k) + (SaveField(v) + rest)|, |SaveField(v) + rest|;
      SettledReread(k, a(x), b(x));
      SettledReread(v, a(y), b(y));
      SettledFirst(ks, m);
      var ea, eb := Entry(Reread(k, a(x)), Reread(v, a(y))), Entry(Reread(k, b(x)), Reread(v, b(y)));
      assert Restored(ks, m, a)[0] == ea && Restored(ks, m, a)[1..] == Restored(ks[1..], m, a);
      assert Restored(ks, m, b)[0] == eb && Restored(ks, m, b)[1..] == Restored(ks[1..], m, b);
    }
  }

  lemma SettledFirst(ks: seq<Text>, m: Store)
    requires ks != [] && Within(ks, m) && Readable(ks[0], m)
    ensures AllSettled(ks, m) <==> Settled(ks[0]) && Settled(m[ks[0]]) && AllSettled(ks[1..], m)
  {
    hide Settled, FieldLength;
    var n := ReadableCount(ks[1..], m);
    assert ReadableCount(ks, m) == n + 1;
    assert forall i | 0 <= i < n :: ks[1..][i] == ks[i + 1];
    assert forall i | 0 < i < n + 1 :: ks[i] == ks[1..][i - 1];
  }

  /**
   Exactly when loading a saved file does not depend on what the buffer held, for every map:
   when no entry before the first refused one has a name or value without a NUL of its own.
   */
  lemma EntriesIgnoreLeftoverIff(ks: seq<Text>, m: Store)
    requires Within(ks, m)
    ensures (forall a: nat -> byte, b: nat -> byte :: Entries(SaveEntries(ks, m), a) == Entries(SaveEntries(ks, m), b))
            <==> AllSettled(ks, m)
  {
    hide SaveEntries, Entries, Restored, AllSettled;
    forall a: nat -> byte, b: nat -> byte | AllSettled(ks, m)
      ensures Entries(SaveEntries(ks, m), a) == Entries(SaveEntries(ks, m), b)
    {
      EntriesRoundTrip(ks, m, a);
      EntriesRoundTrip(ks, m, b);
      RestoredTwice(ks, m, a, b);
    }
    if !AllSettled(ks, m) {
      var a: nat -> byte, b: nat -> byte := n => 1, n => 2;
      EntriesRoundTrip(ks, m, a);
      EntriesRoundTrip(ks, m, b);
      RestoredTwice(ks, m, a, b);
    }
  }

  predicate Clean(m: Store) { forall k | k in m :: NulFree(k) && NulFree(m[k]) }

  /** The entries before every entry that is refused, in key order. */
  function BeforeLong(m: Store): Store {
    map k | k in m && (forall j | j in m && !Readable(j, m) :: Less(k, j)) :: m[k]
  }

  /** The entries of `m` under the listed keys. */
  function Pick(ks: seq<Text>, m: Store): Store
    requires Within(ks, m)
  {
    map k | k in ks :: m[k]
  }

  lemma PickFirst(ks: seq<Text>, m: Store, m0: Store)
    requires ks != [] && Within(ks, m)
    ensures m0[ks[0] := m[ks[0]]] + Pick(ks[1..], m) == m0 + Pick(ks, m)
  {
    assert ks == [ks[0]] + ks[1..];
    assert forall x :: x in ks <==> x == ks[0] || x in ks[1..];
  }

  /** If the first `n` entries are short and the next is refused, exactly those are laid over what was there. */
  lemma {:induction false} RestoredIsOverlay(ks: seq<Text>, m: Store, m0: Store, stale: nat -> byte)
    requires Clean(m) && Within(ks, m) && forall i | 0 <= i < ReadableCount(ks, m) :: Restorable(ks[i], m)
    ensures Lay(m0, Restored(ks, m, stale)) == m0 + Pick(ks[..ReadableCount(ks, m)], m)
  {
    hide Reread, Short, NulFree, FieldLength, SaveEntries, SaveField, Settled;
    if ks == [] || !Readable(ks[0], m) {
      assert Pick(ks[..0], m) == map[];
    } else {
      var k, v := ks[0], m[ks[0]];
      assert Restorable(k, m);
      var e := Restored(ks, m, stale)[0];
      ShortReread(k, stale(|SaveField(k) + (SaveField(v) + SaveEntries(ks[1..], m))|));
      ShortReread(v, stale(|SaveField(v) + SaveEntries(ks[1..], m)|));
      assert e == Entry(k, v) && Restored(ks, m, stale)[1..] == Restored(ks[1..], m, stale);
      var n := ReadableCount(ks, m);
      assert forall i | 0 <= i < n - 1 :: ks[1..][i] == ks[i + 1];
      RestoredIsOverlay(ks[1..], m, m0[k := v], stale);
      assert ks[..n][1..] == ks[1..][..n - 1] && ks[..n][0] == k;
      PickFirst(ks[..n], m, m0);
    }
  }

  lemma OrderIsSaved(file: Text, version: nat, m: Store, ks: seq<Text>)
    requires version < SHORT * SHORT && InOrder(ks, m.Keys) && Within(ks, m)
    requires file == SavedVersion(version) + SaveEntries(ks, m)
    ensures IsSaved(file, version, m)
  {
    hide InOrder, SaveEntries, SavedVersion;
  }

  lemma StripVersion(version: nat, entries: Text, stale: nat -> byte, m0: Store)
    requires version < SHORT * SHORT
    ensures LoadFile(SavedVersion(version) + entries, version, stale, m0) == LoadEntries(entries, stale, m0)
  {
    hide LoadEntries;
    var file := SavedVersion(version) + entries;
    if version != 0 {
      assert file[..4] == Le32(version) && file[4..] == entries;
    } else {
      assert file == entries;
    }
  }

  /** The key order behind a saved file, and what loading the file does. */
  lemma SavedOrder(file: Text, version: nat, m: Store, m0: Store, stale: nat -> byte) returns (ks: seq<Text>)
    requires version < SHORT * SHORT && IsSaved(file, version, m)
    ensures InOrder(ks, m.Keys) && Within(ks, m)
    ensures LoadFile(file, version, stale, m0) == Lay(m0, Restored(ks, m, stale))
  {
    hide InOrder, SaveEntries, SavedVersion, LoadFile, LoadEntries, Entries, Restored;
    ks :| InOrder(ks, m.Keys) && (forall i | 0 <= i < |ks| :: ks[i] in m)
      && file == SavedVersion(version) + SaveEntries(ks, m);
    StripVersion(version, SaveEntries(ks, m), stale, m0);
    LoadingLays(SaveEntries(ks, m), stale, m0);
    EntriesRoundTrip(ks, m, stale);
  }

  lemma PrefixIsBeforeLong(m: Store, ks: seq<Text>)
    requires InOrder(ks, m.Keys) && Within(ks, m)
    ensures Pick(ks[..ReadableCount(ks, m)], m) == BeforeLong(m)
  {
    hide Less, Readable;
    var n := ReadableCount(ks, m);
    forall k | k in m
      ensures k in ks[..n] <==> forall j | j in m && !Readable(j, m) :: Less(k, j)
    {
      var i :| 0 <= i < |ks| && ks[i] == k;
      if i < n {
        assert ks[..n][i] == k;
        forall j | j in m && !Readable(j, m) ensures Less(k, j) {
          var x :| 0 <= x < |ks| && ks[x] == j;
        }
      } else {
        LessTotal(ks[n], k);
        forall x | 0 <= x < n ensures ks[..n][x] != k { LessTotal(ks[x], k); assert Less(ks[x], ks[i]); }
        if n < i { assert Less(ks[n], k); }
        assert !Less(k, ks[n]);
      }
    }
  }

  /** No entry before the first refused one has a length that wrapped. */
  predicate NothingWraps(m: Store) { forall k | k in BeforeLong(m) :: Restorable(k, m) }

  /** Then exactly the entries before the first refused one are laid over what was there. */
  lemma SaveThenLoad(m: Store, file: Text, m0: Store, version: nat, stale: nat -> byte)
    requires version < SHORT * SHORT && IsSaved(file, version, m) && Clean(m) && NothingWraps(m)
    ensures LoadFile(file, version, stale, m0) == m0 + BeforeLong(m)
  {
    hide InOrder, Restored, LoadFile, IsSaved, Clean, BeforeLong, Lay, Restorable, Readable;
    var ks := SavedOrder(file, version, m, m0, stale);
    PrefixIsBeforeLong(m, ks);
    forall i | 0 <= i < ReadableCount(ks, m) ensures Restorable(ks[i], m) {
      assert ks[i] in ks[..ReadableCount(ks, m)] && ks[i] in Pick(ks[..ReadableCount(ks, m)], m);
    }
    RestoredIsOverlay(ks, m, m0, stale);
  }

  lemma {:induction false} LaidAreShort(ks: seq<Text>, m: Store, m0: Store, stale: nat -> byte)
    requires Within(ks, m) && forall k | k in m0 :: |k| <= FIELD_LIMIT && |m0[k]| <= FIELD_LIMIT
    ensures var t := Lay(m0, Restored(ks, m, stale)); forall k | k in t :: |k| <= FIELD_LIMIT && |t[k]| <= FIELD_LIMIT
  {
    hide Reread, FieldLength, SaveEntries, SaveField;
    if ks != [] && Readable(ks[0], m) {
      var k, v := ks[0], m[ks[0]];
      var rest := SaveField(v) + SaveEntries(ks[1..], m);
      var x, y := stale(|SaveField(k) + rest|), stale(|rest|);
      RereadIsShort(k, x);
      RereadIsShort(v, y);
      var es := Restored(ks, m, stale);
      assert es[0] == Entry(Reread(k, x), Reread(v, y)) && es[1..] == Restored(ks[1..], m, stale);
      LaidAreShort(ks[1..], m, m0[Reread(k, x) := Reread(v, y)], stale);
    }
  }

  lemma ReadableFits(k: Text, m: Store)
    requires k in m && |k| <= FIELD_LIMIT && |m[k]| <= FIELD_LIMIT && Readable(k, m)
    ensures Restorable(k, m)
  {
  }

  lemma BeforeLongIsReadable(m: Store, k: Text)
    requires k in BeforeLong(m)
    ensures k in m && BeforeLong(m)[k] == m[k] && Readable(k, m)
  {
    hide Less, Readable;
    LessTotal(k, k);
  }

  lemma LoadedIsShort(m: Store, loaded: Store)
    requires loaded == BeforeLong(m) || loaded == m
    requires forall k | k in loaded :: |k| <= FIELD_LIMIT && |loaded[k]| <= FIELD_LIMIT
    ensures NothingWraps(m) && (BeforeLong(m) == m ==> forall k | k in m :: Restorable(k, m))
  {
    hide BeforeLong, Readable, Restorable;
    forall k | k in BeforeLong(m) ensures k in m && Restorable(k, m) {
      BeforeLongIsReadable(m, k);
      ReadableFits(k, m);
    }
  }

  lemma ShortIsReadable(m: Store, k: Text)
    requires k in m && Restorable(k, m)
    ensures Readable(k, m)
  {
  }

  lemma AllShort(m: Store)
    requires forall k | k in m :: Restorable(k, m)
    ensures BeforeLong(m) == m && NothingWraps(m)
  {
    hide Restorable, Readable, Less;
    forall k | k in m ensures Readable(k, m) { ShortIsReadable(m, k); }
  }

  /**
   For every map of NUL-free strings: loading into an empty manager restores exactly the entries
   before the first refused one in key order, if and only if the lengths of those entries did
   not wrap; and it restores the whole map if and only if every entry has at most 510 bytes.
   */
  lemma LoadRestoresIff(m: Store, file: Text, version: nat, stale: nat -> byte)
    requires version < SHORT * SHORT && IsSaved(file, version, m) && Clean(m)
    ensures LoadFile(file, version, stale, map[]) == BeforeLong(m) <==> NothingWraps(m)
    ensures LoadFile(file, version, stale, map[]) == m <==> forall k | k in m :: Restorable(k, m)
  {
    hide InOrder, Restored, LoadFile, IsSaved, Clean, Lay, Restorable, Readable, BeforeLong;
    var loaded := LoadFile(file, version, stale, map[]);
    var ks := SavedOrder(file, version, m, map[], stale);
    LaidAreShort(ks, m, map[], stale);
    if NothingWraps(m) {
      SaveThenLoad(m, file, map[], version, stale);
      assert map[] + BeforeLong(m) == BeforeLong(m);
    }
    if forall k | k in m :: Restorable(k, m) { AllShort(m); }
    if loaded == BeforeLong(m) || loaded == m { LoadedIsShort(m, loaded); }
  }

  /** A string of 65535 bytes: its length wraps to 0, and nothing of it is written. */
  function Long(c: byte): Text { Repeat(c, SHORT - 1) }

  /** One setting with such a value: a file that loads as two different maps. */
  lemma WrappedLengthReadsLeftover(file: Text)
    requires IsSaved(file, 0, map[[120] := Long(120)])
    ensures LoadFile(file, 0, n => 1, map[]) == map[[120] := [1]]
    ensures LoadFile(file, 0, n => 2, map[]) == map[[120] := [2]]
  {
    WrappedLoads(file, n => 1);
    WrappedLoads(file, n => 2);
  }

  lemma WrappedLoads(file: Text, stale: nat -> byte)
    requires IsSaved(file, 0, map[[120] := Long(120)])
    requires forall n :: stale(n) != 0 && stale(n) == stale(0)
    ensures LoadFile(file, 0, stale, map[]) == map[[120] := [stale(0)]]
  {
    hide LoadFile, IsSaved, SaveEntries, SaveField, Less;
    var x: Text := [120];
    var m := map[x := Long(120)];
    var ks := SavedOrder(file, 0, m, map[], stale);
    OneKey(ks, x, m);
    ShortReread(x, stale(|SaveField(x) + (SaveField(Long(120)) + [])|));
    assert FieldLength(Long(120)) == 0 && Written(Long(120)) == [];
    NulEnds([], stale(0));
    assert Reread(Long(120), stale(0)) == [] + [stale(0)] == [stale(0)];
    OneRestored(x, m, stale);
  }

  lemma OneKey(ks: seq<Text>, x: Text, m: Store)
    requires InOrder(ks, m.Keys) && m.Keys == {x}
    ensures ks == [x]
  {
    hide Less;
    assert x in ks;
    forall i | 0 <= i < |ks| ensures ks[i] == x { assert ks[i] in ks; }
    assert |ks| <= 1 || Less(ks[0], ks[1]);
    LessTotal(x, x);
  }

  lemma OneRestored(x: Text, m: Store, stale: nat -> byte)
    requires m.Keys == {x} && Readable(x, m) && forall n :: stale(n) == stale(0)
    ensures Lay(map[], Restored([x], m, stale)) == map[Reread(x, stale(0)) := Reread(m[x], stale(0))]
  {
    hide SaveEntries, SaveField, Reread, Readable;
    assert [x][1..] == [];
    var e := Entry(Reread(x, stale(0)), Reread(m[x], stale(0)));
    assert Restored([], m, stale) == [];
    assert Restored([x], m, stale) == [e] && [e][1..] == [];
  }

  /** A file written under another version leaves the map as it was. */
  lemma VersionMismatchIsIgnored(entries: Text, saved: nat, expected: nat, stale: nat -> byte, m0: Store)
    requires saved < SHORT * SHORT && expected < SHORT * SHORT && saved != expected && saved != 0 && expected != 0
    ensures LoadFile(SavedVersion(saved) + entries, expected, stale, m0) == m0
  {
    hide LoadEntries;
    var file := SavedVersion(saved) + entries;
    assert file[..4] == Le32(saved);
    if Le32(saved) == Le32(expected) {
      assert Le16(saved % SHORT) == Le32(saved)[..2] && Le16(saved / SHORT) == Le32(saved)[2..];
      assert Le16(expected % SHORT) == Le32(expected)[..2] && Le16(expected / SHORT) == Le32(expected)[2..];
      Le16Injective(saved % SHORT, expected % SHORT);
      Le16Injective(saved / SHORT, expected / SHORT);
    }
  }

  lemma Le16Injective(a: nat, b: nat)
    requires a < SHORT && b < SHORT && Le16(a) == Le16(b)
    ensures a == b
  {
    assert Le16(a)[0] == Le16(b)[0] && Le16(a)[1] == Le16(b)[1];
  }
}
