/** TWExclude::Get_Folder_Size: what a directory weighs outside its excluded directories. */
module FolderSize {
  import opened Common
  import opened Paths
  import opened Exclude
  import opened FileTree

  // ---- The mode tests ----

  const S_IFDIR: bv16 := 0x4000
  const S_IFREG: bv16 := 0x8000
  const S_IFLNK: bv16 := 0xa000

  /** The file type bits of st_mode. */
  function Mode(kind: Kind): bv16 {
    match kind
    case Dir => 0x4000 case Reg => 0x8000 case Lnk => 0xa000 case Fifo => 0x1000
    case Sock => 0xc000 case Chr => 0x2000 case Blk => 0x6000 case UnknownKind => 0
  }

  /** The tests are on single bits, so they also hold for kinds they do not name. */
  lemma ModeBits(kind: Kind)
    ensures Mode(kind) & S_IFDIR != 0 <==> kind == Dir || kind == Blk || kind == Sock
    ensures Mode(kind) & S_IFREG != 0 || Mode(kind) & S_IFLNK != 0 <==>
              kind == Reg || kind == Lnk || kind == Sock || kind == Chr || kind == Blk
  {
  }

  // ---- What is counted ----

  const TWO64: nat := 0x1_0000_0000_0000_0000

  /** uint64_t arithmetic. */
  function Wrap64(n: nat): nat { n % TWO64 }

  /** A tree, the entries lstat fails on, and the directories that cannot be opened. */
  datatype Disk = Disk(tree: Tree, unstatable: set<Key>, closed: set<Key>)

  /** A directory whose contents are looked at. */
  predicate Entered(env: Env, disk: Disk, k: Key) {
    k !in disk.unstatable && k !in disk.closed && !Excluded(env, k)
  }

  /** An entry whose st_size is added: excluded block devices are among them. */
  predicate HasSize(env: Env, kind: Kind, k: Key) {
    kind == Reg || kind == Lnk || kind == Sock || kind == Chr || (kind == Blk && Excluded(env, k))
  }

  /** Entry `k` is reached from `key` through entered directories only, and has a size. */
  predicate Counted(env: Env, disk: Disk, key: Key, k: Key) {
    && k in disk.tree && key < k && k !in disk.unstatable && HasSize(env, disk.tree[k].kind, k)
    && forall j | |key| < j < |k| :: Entered(env, disk, k[..j])
  }

  function CountedIn(env: Env, disk: Disk, key: Key, done: set<string>): set<Key> {
    set k | k in disk.tree && Counted(env, disk, key, k) && k[|key|] in done
  }

  function AllCounted(env: Env, disk: Disk, key: Key): set<Key> {
    set k | k in disk.tree && Counted(env, disk, key, k)
  }

  ghost function Sum(t: Tree, s: set<Key>): nat
    requires s <= t.Keys
  {
    if s == {} then 0 else
      var k :| k in s;
      t[k].size + Sum(t, s - {k})
  }

  lemma {:induction false} SumWithout(t: Tree, s: set<Key>, k: Key)
    requires s <= t.Keys && k in s
    ensures Sum(t, s) == t[k].size + Sum(t, s - {k})
    decreases |s|
  {
    var x :| x in s && Sum(t, s) == t[x].size + Sum(t, s - {x});
    if x != k {
      SumWithout(t, s - {x}, k);
      SumWithout(t, s - {k}, x);
      assert s - {x} - {k} == s - {k} - {x};
    }
  }

  lemma {:induction false} SumOfUnion(t: Tree, a: set<Key>, b: set<Key>)
    requires a <= t.Keys && b <= t.Keys && a !! b
    ensures Sum(t, a + b) == Sum(t, a) + Sum(t, b)
    decreases |a|
  {
    if a == {} {
      assert a + b == b;
    } else {
      var k :| k in a;
      SumWithout(t, a, k);
      SumWithout(t, a + b, k);
      assert a + b - {k} == (a - {k}) + b;
      SumOfUnion(t, a - {k}, b);
    }
  }

  lemma {:induction false} SumMonotone(t: Tree, a: set<Key>, b: set<Key>)
    requires a <= b <= t.Keys
    ensures Sum(t, a) <= Sum(t, b)
  {
    SumOfUnion(t, a, b - a);
    assert b == a + (b - a);
  }

  /** The exact size, before it is cut to 64 bits. */
  ghost function Size(env: Env, disk: Disk, key: Key): nat {
    if key in disk.tree && disk.tree[key].kind == Dir && key !in disk.closed
    then Sum(disk.tree, AllCounted(env, disk, key)) else 0
  }

  // ---- One entry ----

  /** What one entry contributes. */
  ghost function EntrySize(env: Env, disk: Disk, k: Key): nat
    requires k in disk.tree
  {
    if k in disk.unstatable then 0
    else if (disk.tree[k].kind == Dir || disk.tree[k].kind == Blk) && !Excluded(env, k) then Size(env, disk, k)
    else if HasSize(env, disk.tree[k].kind, k) then disk.tree[k].size
    else 0
  }

  /** The counted entries at or below one child. */
  function CountedUnder(env: Env, disk: Disk, key: Key, name: string): set<Key> {
    set k | k in disk.tree && Counted(env, disk, key, k) && key + [name] <= k
  }

  lemma LeafIsOnlyCounted(env: Env, disk: Disk, key: Key, name: string)
    requires WellFormed(disk.tree) && key + [name] in disk.tree
    requires disk.tree[key + [name]].kind != Dir || !Entered(env, disk, key + [name])
    ensures CountedUnder(env, disk, key, name) <= {key + [name]}
  {
    hide HasSize, Entered, WellFormed;
    var child := key + [name];
    forall k | k in CountedUnder(env, disk, key, name) ensures k == child {
      assert child < k ==> k[..|child|] == child;
      if k != child { AncestorIsDir(disk.tree, child, k); }
    }
  }

  lemma CountedThrough(env: Env, disk: Disk, key: Key, child: Key, k: Key)
    requires key < child < k && |child| == |key| + 1 && Entered(env, disk, child)
    ensures Counted(env, disk, key, k) <==> Counted(env, disk, child, k)
  {
    hide HasSize, Entered;
    assert k[..|child|] == child;
    if Counted(env, disk, child, k) {
      forall j | |key| < j < |k| ensures Entered(env, disk, k[..j]) {
        if j != |child| { assert |child| < j; }
      }
    }
  }

  lemma DirCounts(env: Env, disk: Disk, key: Key, name: string)
    requires key + [name] in disk.tree && disk.tree[key + [name]].kind == Dir && Entered(env, disk, key + [name])
    ensures CountedUnder(env, disk, key, name) == AllCounted(env, disk, key + [name])
  {
    hide Entered;
    var child := key + [name];
    ChildCounted(env, disk, key, name);
    forall k | k in disk.tree && child < k
      ensures k in CountedUnder(env, disk, key, name) <==> k in AllCounted(env, disk, child)
    {
      CountedThrough(env, disk, key, child, k);
    }
    assert forall k | k in CountedUnder(env, disk, key, name) :: k != child ==> child < k;
    assert forall k | k in AllCounted(env, disk, child) :: child < k;
  }

  /** The sum of the counted entries under a child is what the code adds for it. */
  lemma EntryContribution(env: Env, disk: Disk, key: Key, name: string)
    requires WellFormed(disk.tree) && key + [name] in disk.tree
    ensures CountedUnder(env, disk, key, name) <= disk.tree.Keys
    ensures Sum(disk.tree, CountedUnder(env, disk, key, name)) == EntrySize(env, disk, key + [name])
  {
    hide WellFormed, Excluded;
    var child := key + [name];
    var under := CountedUnder(env, disk, key, name);
    if disk.tree[child].kind == Dir && Entered(env, disk, child) {
      DirCounts(env, disk, key, name);
    } else {
      LeafIsOnlyCounted(env, disk, key, name);
      ChildCounted(env, disk, key, name);
      if child in under {
        assert under == {child};
        SumWithout(disk.tree, {child}, child);
        assert {child} - {child} == {};
      } else {
        assert under == {};
      }
    }
  }

  lemma ChildCounted(env: Env, disk: Disk, key: Key, name: string)
    requires key + [name] in disk.tree
    ensures var child := key + [name];
            child in CountedUnder(env, disk, key, name) <==>
              child !in disk.unstatable && HasSize(env, disk.tree[child].kind, child)
  {
  }

  lemma OneMoreName(env: Env, disk: Disk, key: Key, done: set<string>, name: string)
    requires WellFormed(disk.tree) && key + [name] in disk.tree && name !in done
    ensures CountedIn(env, disk, key, done + {name}) <= disk.tree.Keys
    ensures Sum(disk.tree, CountedIn(env, disk, key, done + {name})) ==
            Sum(disk.tree, CountedIn(env, disk, key, done)) + EntrySize(env, disk, key + [name])
  {
    hide Counted, WellFormed, EntrySize;
    var a, b := CountedIn(env, disk, key, done), CountedUnder(env, disk, key, name);
    assert forall k | k in disk.tree && Counted(env, disk, key, k) :: key < k by {
      forall k | k in disk.tree && Counted(env, disk, key, k) ensures key < k { CountedIsBelow(env, disk, key, k); }
    }
    assert CountedIn(env, disk, key, done + {name}) == a + b;
    EntryContribution(env, disk, key, name);
    SumOfUnion(disk.tree, a, b);
  }

  lemma CountedIsBelow(env: Env, disk: Disk, key: Key, k: Key)
    requires Counted(env, disk, key, k)
    ensures key < k
  {
  }

  lemma AllNamesDone(env: Env, disk: Disk, key: Key, names: seq<string>, done: set<string>)
    requires WellFormed(disk.tree) && IsListing(disk.tree, key, names) && Visited(names, |names|, done)
    ensures CountedIn(env, disk, key, done) == AllCounted(env, disk, key)
  {
    hide WellFormed, IsListing, IsDot, HasSize, Entered;
    forall k | k in disk.tree && Counted(env, disk, key, k) ensures k[|key|] in done {
      ListedComponent(disk.tree, key, names, k);
    }
  }

  lemma NothingCounted(env: Env, disk: Disk, key: Key)
    ensures CountedIn(env, disk, key, {}) == {} && Sum(disk.tree, {}) == 0
    ensures Wrap64(0) == 0
  {
  }

  lemma NothingToWeigh(env: Env, disk: Disk, key: Key)
    requires key !in disk.tree || disk.tree[key].kind != Dir || key in disk.closed
    ensures Size(env, disk, key) % 0x1_0000_0000_0000_0000 == 0
  {
  }

  lemma AllWeighed(env: Env, disk: Disk, key: Key, names: seq<string>, done: set<string>, size: nat)
    requires WellFormed(disk.tree) && IsListing(disk.tree, key, names) && Visited(names, |names|, done)
    requires key in disk.tree && disk.tree[key].kind == Dir && key !in disk.closed
    requires Weighed(env, disk, key, done, size)
    ensures size == Size(env, disk, key) % 0x1_0000_0000_0000_0000
  {
    hide CountedIn, AllCounted, Sum, WellFormed, IsListing, Visited;
    AllNamesDone(env, disk, key, names, done);
  }

  /** A dot entry is a directory that the relative list excludes, so nothing is added for it. */
  lemma DotIsSkipped(env: Env, key: Key, name: string)
    requires IsDot(name) && "." in env.relative && ".." in env.relative
    ensures Skips(env.relative, env.absolute, PathOf(env, key) + "/" + name)
  {
    hide Skips;
    assert IsName(name);
    EntrySkips(env.relative, env.absolute, PathOf(env, key), name);
  }

  /**
   Get_Folder_Size on the directory `key` at `path`: the sizes of all entries that are reached
   without entering an excluded, unreadable or unstatable directory, in 64-bit arithmetic.
   The lists must still hold the two dot entries, or the code would follow them.
   */
  method GetFolderSize(e: TWExclude, disk: Disk, key: Key, path: string, mount: string) returns (size: nat)
    requires WellFormed(disk.tree) && path == mount + Rooted(key)
    requires "." in e.relativedir && ".." in e.relativedir
    ensures size == Size(Env(mount, e.relativedir, e.absolutedir, {}, {}), disk, key) % 0x1_0000_0000_0000_0000
    decreases |Below(disk.tree, key)|, 0
  {
    hide WellFormed, IsListing, IsDot, Skips, Rooted, Visited, Weighed, Size, Below, Excluded, HasSize, Wrap64;
    ghost var env := Env(mount, e.relativedir, e.absolutedir, {}, {});
    NothingWeighed(env, disk, key);
    if key !in disk.tree || disk.tree[key].kind != Dir || key in disk.closed {
      NothingToWeigh(env, disk, key);
      return 0;  // opendir fails
    }
    size := 0;
    var names := ListDirectory(disk.tree, key);
    ghost var done: set<string> := {};
    NothingVisited(names);
    var i := 0;
    while i < |names|
      invariant 0 <= i <= |names| && Visited(names, i, done)
      invariant Weighed(env, disk, key, done, size)
    {
      VisitStep(names, i, done);
      EntryPath(mount, key, names[i]);
      if IsDot(names[i]) {
        WeighDot(e, key, path + "/" + names[i], mount, names[i]);
      } else {
        ListedEntry(disk.tree, key, names, i, done);
        BelowShrinks(disk.tree, disk.tree, key, key + [names[i]]);
        size := WeighEntry(e, disk, key, path, mount, names[i], done, size);
        done := done + {names[i]};
      }
      i := i + 1;
    }
    AllWeighed(env, disk, key, names, done, size);
  }

  /** A dot entry is a directory, is skipped, and adds nothing. */
  method WeighDot(e: TWExclude, key: Key, fullPath: string, mount: string, name: string)
    requires IsDot(name) && fullPath == mount + Rooted(key) + "/" + name
    requires "." in e.relativedir && ".." in e.relativedir
  {
    DotIsSkipped(Env(mount, e.relativedir, e.absolutedir, {}, {}), key, name);
    ModeBits(Dir);
    var skip := e.CheckSkipDirs(fullPath);
    assert skip && !(Mode(Dir) & S_IFREG != 0 || Mode(Dir) & S_IFLNK != 0);
  }

  /** `size` is the weight of the entries under the names that are done. */
  ghost predicate Weighed(env: Env, disk: Disk, key: Key, done: set<string>, size: nat) {
    && CountedIn(env, disk, key, done) <= disk.tree.Keys
    && size == Wrap64(Sum(disk.tree, CountedIn(env, disk, key, done)))
  }

  lemma NothingWeighed(env: Env, disk: Disk, key: Key)
    ensures Weighed(env, disk, key, {}, 0)
  {
    NothingCounted(env, disk, key);
  }

  /** One round of the loop, for an entry that is not yet counted. */
  method WeighEntry(e: TWExclude, disk: Disk, key: Key, path: string, mount: string, name: string,
                    ghost done: set<string>, size: nat) returns (sum: nat)
    requires WellFormed(disk.tree) && key + [name] in disk.tree && name !in done
    requires path + "/" + name == mount + Rooted(key + [name])
    requires "." in e.relativedir && ".." in e.relativedir
    requires Weighed(Env(mount, e.relativedir, e.absolutedir, {}, {}), disk, key, done, size)
    ensures Weighed(Env(mount, e.relativedir, e.absolutedir, {}, {}), disk, key, done + {name}, sum)
    decreases |Below(disk.tree, key + [name])|, 2
  {
    hide WellFormed, Rooted, CountedIn, Below, Sum, Counted, EntrySize, Wrap64;
    ghost var env := Env(mount, e.relativedir, e.absolutedir, {}, {});
    OneMoreName(env, disk, key, done, name);
    var add := SizeOfEntry(e, disk, key + [name], path + "/" + name, mount);
    AddMod(Sum(disk.tree, CountedIn(env, disk, key, done)), EntrySize(env, disk, key + [name]));
    sum := Wrap64(size + add);
  }

  /** What the body of the loop adds for one entry. */
  method SizeOfEntry(e: TWExclude, disk: Disk, child: Key, fullPath: string, mount: string) returns (add: nat)
    requires WellFormed(disk.tree) && child in disk.tree && child != [] && fullPath == mount + Rooted(child)
    requires "." in e.relativedir && ".." in e.relativedir
    ensures add == Wrap64(EntrySize(Env(mount, e.relativedir, e.absolutedir, {}, {}), disk, child))
    decreases |Below(disk.tree, child)|, 1
  {
    hide WellFormed, Skips, Rooted, Size, Below;
    NothingCounted(Env(mount, e.relativedir, e.absolutedir, {}, {}), disk, child);
    if child in disk.unstatable {
      return 0;  // lstat fails
    }
    var kind := disk.tree[child].kind;
    ModeBits(kind);
    var skip := e.CheckSkipDirs(fullPath);
    if Mode(kind) & S_IFDIR != 0 && !skip && kind != Sock {
      add := GetFolderSize(e, disk, child, fullPath, mount);
    } else if Mode(kind) & S_IFREG != 0 || Mode(kind) & S_IFLNK != 0 {
      add := Wrap64(disk.tree[child].size);
    } else {
      add := 0;
    }
  }

  lemma AddMod(a: nat, b: nat)
    ensures Wrap64(Wrap64(a) + Wrap64(b)) == Wrap64(a + b)
  {
  }

  // ---- Consequences ----

  function CountedFiles(env: Env, disk: Disk, key: Key): set<Key> {
    set k | k in disk.tree && Counted(env, disk, key, k) && (disk.tree[k].kind == Reg || disk.tree[k].kind == Lnk)
  }

  lemma {:induction false} SumOfZerosIff(t: Tree, s: set<Key>)
    requires s <= t.Keys
    ensures Sum(t, s) == 0 <==> forall k | k in s :: t[k].size == 0
    decreases |s|
  {
    if s != {} {
      var k :| k in s;
      SumWithout(t, s, k);
      SumOfZerosIff(t, s - {k});
    }
  }

  /** The size is that of the reached files and links, if and only if no other counted entry has a size. */
  lemma SizeIsFilesAndLinksIff(env: Env, disk: Disk, key: Key)
    requires key in disk.tree && disk.tree[key].kind == Dir && key !in disk.closed
    ensures CountedFiles(env, disk, key) <= disk.tree.Keys
    ensures Size(env, disk, key) == Sum(disk.tree, CountedFiles(env, disk, key)) <==>
            forall k | k in AllCounted(env, disk, key) - CountedFiles(env, disk, key) :: disk.tree[k].size == 0
  {
    var all, files := AllCounted(env, disk, key), CountedFiles(env, disk, key);
    SumOfUnion(disk.tree, files, all - files);
    assert all == files + (all - files);
    SumOfZerosIff(disk.tree, all - files);
  }

  predicate Extends(list: seq<string>, more: seq<string>) { forall d | d in list :: d in more }

  /** The same mount point with more excluded directories. */
  predicate Restricts(env: Env, more: Env) {
    env.mount == more.mount && Extends(env.relative, more.relative) && Extends(env.absolute, more.absolute)
  }

  /** A block device that is reached from `key` and not excluded: it is not counted yet. */
  predicate OpenBlock(env: Env, disk: Disk, key: Key, k: Key) {
    && k in disk.tree && key < k && k !in disk.unstatable && disk.tree[k].kind == Blk && !Excluded(env, k)
    && forall j | |key| < j < |k| :: Entered(env, disk, k[..j])
  }

  ghost predicate BlocksWeighNothing(env: Env, disk: Disk, key: Key) {
    forall k | OpenBlock(env, disk, key, k) :: disk.tree[k].size == 0
  }

  ghost predicate NeverHeavier(env: Env, disk: Disk, key: Key) {
    forall more: Env | Restricts(env, more) :: Size(more, disk, key) <= Size(env, disk, key)
  }

  /** A device that becomes counted was reached before, and was not excluded. */
  lemma NewBlockWasOpen(env: Env, more: Env, disk: Disk, key: Key, k: Key)
    requires Restricts(env, more) && Counted(more, disk, key, k) && disk.tree[k].kind == Blk
    ensures Counted(env, disk, key, k) || OpenBlock(env, disk, key, k)
  {
    hide Excluded;
    forall j | |key| < j < |k| ensures Entered(env, disk, k[..j]) {
      assert Entered(more, disk, k[..j]);
      SkipsMore(env, more, k[..j]);
    }
  }

  lemma OpenBlocksOnly(env: Env, more: Env, disk: Disk, key: Key)
    requires Restricts(env, more) && BlocksWeighNothing(env, disk, key)
    ensures Size(more, disk, key) <= Size(env, disk, key)
  {
    hide HasSize, Entered, Excluded, Counted, OpenBlock;
    if key in disk.tree && disk.tree[key].kind == Dir && key !in disk.closed {
      var all, fewer := AllCounted(env, disk, key), AllCounted(more, disk, key);
      var blocks := fewer - all;
      forall k | k in blocks ensures disk.tree[k].size == 0 {
        if disk.tree[k].kind == Blk {
          NewBlockWasOpen(env, more, disk, key, k);
        } else {
          CountedLess(env, more, disk, key, k);
        }
      }
      SumOfUnion(disk.tree, blocks, fewer - blocks);
      assert fewer == blocks + (fewer - blocks);
      SumOfZerosIff(disk.tree, blocks);
      SumMonotone(disk.tree, fewer - blocks, all);
    }
  }

  lemma {:induction false} KeyNames(t: Tree, k: Key)
    requires WellFormed(t) && k in t
    ensures Names(k)
  {
    forall i | 0 <= i < |k| ensures IsName(k[i]) { AncestorIsDir(t, k[..i], k); }
  }

  lemma PathComponents(env: Env, k: Key)
    requires k != [] && Names(k)
    ensures Components(PathOf(env, k)) == Components(env.mount) + k
  {
    hide Components;
    RootedComponents(k);
    ComponentsBelow(env.mount, k[0] + Rooted(k[1..]));
    assert PathOf(env, k) == env.mount + "/" + (k[0] + Rooted(k[1..]));
  }

  lemma PathsDiffer(env: Env, j: Key, k: Key)
    requires j != [] && k != [] && Names(j) && Names(k) && Normal(PathOf(env, j)) == Normal(PathOf(env, k))
    ensures j == k
  {
    hide Components, Normal;
    NormalFormsIff(PathOf(env, j), PathOf(env, k));
    PathComponents(env, j);
    PathComponents(env, k);
    var m := Components(env.mount);
    assert j == (m + j)[|m|..] && k == (m + k)[|m|..];
  }

  /** The same lists, and the path of `b`. */
  function Also(env: Env, b: Key): Env { env.(absolute := env.absolute + [Normal(PathOf(env, b))]) }

  lemma AlsoExcludes(env: Env, t: Tree, b: Key, k: Key)
    requires WellFormed(t) && b in t && b != [] && k in t
    ensures Excluded(Also(env, b), k) <==> Excluded(env, k) || k == b
  {
    hide Components, Normal;
    KeyNames(t, b);
    KeyNames(t, k);
    if k != [] && Normal(PathOf(env, k)) == Normal(PathOf(env, b)) { PathsDiffer(env, k, b); }
    assert Normal(PathOf(env, k)) in Also(env, b).absolute <==>
      Normal(PathOf(env, k)) in env.absolute || Normal(PathOf(env, k)) == Normal(PathOf(env, b));
  }

  /** Excluding an open block device by its path adds that device and changes nothing else. */
  lemma AlsoCounts(env: Env, disk: Disk, key: Key, b: Key)
    requires WellFormed(disk.tree) && OpenBlock(env, disk, key, b)
    ensures b !in AllCounted(env, disk, key) && AllCounted(Also(env, b), disk, key) == AllCounted(env, disk, key) + {b}
  {
    hide Excluded, Also, WellFormed;
    forall k | k in disk.tree && key < k
      ensures Counted(Also(env, b), disk, key, k) <==> Counted(env, disk, key, k) || k == b
    {
      AlsoExcludes(env, disk.tree, b, k);
      forall j | |key| < j < |k| ensures Entered(Also(env, b), disk, k[..j]) <==> Entered(env, disk, k[..j]) {
        AncestorIsDir(disk.tree, k[..j], k);
        AlsoExcludes(env, disk.tree, b, k[..j]);
      }
    }
  }

  /**
   Exactly when adding exclusions never makes a directory heavier, whatever is added: when every
   block device that is reached and not excluded has no size. Such a device is counted as soon
   as it is excluded. (lstat normally reports no size for a device node.)
   */
  lemma MoreExclusionsWeighLessIff(env: Env, disk: Disk, key: Key)
    requires WellFormed(disk.tree) && key in disk.tree && disk.tree[key].kind == Dir && key !in disk.closed
    ensures NeverHeavier(env, disk, key) <==> BlocksWeighNothing(env, disk, key)
  {
    hide Excluded, WellFormed, Entered, Restricts, Size;
    if BlocksWeighNothing(env, disk, key) {
      forall more: Env | Restricts(env, more) ensures Size(more, disk, key) <= Size(env, disk, key) {
        OpenBlocksOnly(env, more, disk, key);
      }
    } else {
      var b :| OpenBlock(env, disk, key, b) && disk.tree[b].size != 0;
      AlsoWeighs(env, disk, key, b);
    }
  }

  lemma AlsoWeighs(env: Env, disk: Disk, key: Key, b: Key)
    requires WellFormed(disk.tree) && key in disk.tree && disk.tree[key].kind == Dir && key !in disk.closed
    requires OpenBlock(env, disk, key, b)
    ensures Restricts(env, Also(env, b)) && Size(Also(env, b), disk, key) == Size(env, disk, key) + disk.tree[b].size
  {
    hide Counted, Normal, Excluded;
    AlsoCounts(env, disk, key, b);
    var all := AllCounted(env, disk, key);
    SumWithout(disk.tree, all + {b}, b);
    assert all + {b} - {b} == all;
  }

  lemma CountedLess(env: Env, more: Env, disk: Disk, key: Key, k: Key)
    requires Restricts(env, more)
    requires Counted(more, disk, key, k) && disk.tree[k].kind != Blk
    ensures Counted(env, disk, key, k)
  {
    hide Excluded;
    forall j | |key| < j < |k| ensures Entered(env, disk, k[..j]) {
      assert Entered(more, disk, k[..j]);
      SkipsMore(env, more, k[..j]);
    }
  }

  lemma SkipsMore(env: Env, more: Env, k: Key)
    requires Restricts(env, more)
    ensures Excluded(env, k) ==> Excluded(more, k)
  {
    hide Components, Normal;
  }
}
