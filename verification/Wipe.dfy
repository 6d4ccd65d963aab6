/** TWPartition::Wipe_Data_Without_Wiping_Media: deleting a tree around its exclusions. */
module Wipe {
  import opened Common
  import opened Paths
  import opened Exclude
  import opened FileTree

  predicate Unlinkable(kind: Kind) { kind == Reg || kind == Lnk || kind == Fifo || kind == Sock }

  /** The entry or a directory above it is excluded. */
  predicate Shielded(env: Env, k: Key) { exists j | 1 <= j <= |k| :: Excluded(env, k[..j]) }

  /** What keeps an entry in place by itself: an exclusion, a kind that is not deleted, or the kernel. */
  predicate Pinned(env: Env, t: Tree, k: Key)
    requires k in t
  {
    && k != []
    && (Shielded(env, k) || t[k].kind == Chr || t[k].kind == Blk || t[k].kind == UnknownKind || k in env.stuck)
  }

  /** The root, the pinned entries, and the directories above them. */
  predicate Survives(env: Env, t: Tree, k: Key) {
    k in t && (k == [] || exists d | d in t :: k <= d && Pinned(env, t, d))
  }

  /** `t` is `t0` without the doomed entries below `key` whose next component is in `done`. */
  ghost predicate WipedTo(env: Env, t0: Tree, t: Tree, key: Key, done: set<string>) {
    && (forall k {:trigger k in t} :: k in t ==> k in t0 && t[k] == t0[k])
    && (forall k {:trigger k in t0} :: k in t0 ==>
          (k in t <==> !(key < k && k[|key|] in done && !Survives(env, t0, k))))
  }

  /** `t` is `t0` without the doomed entries below `key`. */
  ghost predicate WipedBelow(env: Env, t0: Tree, t: Tree, key: Key) {
    && (forall k {:trigger k in t} :: k in t ==> k in t0 && t[k] == t0[k])
    && (forall k {:trigger k in t0} :: k in t0 ==> (k in t <==> !(key < k && !Survives(env, t0, k))))
  }

  /** Nothing but doomed entries below `key` was removed. */
  ghost predicate PartlyWiped(env: Env, t0: Tree, t: Tree, key: Key) {
    && (forall k {:trigger k in t} :: k in t ==> k in t0 && t[k] == t0[k])
    && (forall k {:trigger k in t0} :: k in t0 && k !in t ==> key < k && !Survives(env, t0, k))
  }

  lemma ShieldedBelow(env: Env, p: Key, k: Key)
    requires p <= k && Shielded(env, p)
    ensures Shielded(env, k)
  {
    var j :| 1 <= j <= |p| && Excluded(env, p[..j]);
    assert k[..j] == p[..j];
  }

  lemma ThroughChild(key: Key, name: string, k: Key)
    requires key < k
    ensures k[|key|] == name <==> key + [name] <= k
  {
  }

  /** Entries below an excluded one survive. */
  lemma SkipStep(env: Env, t0: Tree, t: Tree, key: Key, done: set<string>, name: string)
    requires WipedTo(env, t0, t, key, done) && Excluded(env, key + [name])
    ensures WipedTo(env, t0, t, key, done + {name})
  {
    var child := key + [name];
    forall k | k in t0 && key < k && k[|key|] == name ensures Survives(env, t0, k) {
      ThroughChild(key, name, k);
      assert child[..|child|] == child && Shielded(env, child);
      ShieldedBelow(env, child, k);
      assert k <= k && Pinned(env, t0, k);
    }
  }

  /** An entry that is not a directory has nothing below it. */
  lemma LeafSurvives(env: Env, t: Tree, k: Key)
    requires WellFormed(t) && k in t && k != [] && t[k].kind != Dir
    ensures Survives(env, t, k) <==> Pinned(env, t, k)
    ensures forall d | d in t && k <= d :: d == k
  {
    forall d | d in t && k <= d ensures d == k {
      if k != d { AncestorIsDir(t, k, d); }
    }
  }

  lemma LeafStep(env: Env, t0: Tree, t: Tree, t': Tree, key: Key, done: set<string>, name: string)
    requires WellFormed(t0) && WipedTo(env, t0, t, key, done) && name !in done
    requires key + [name] in t0 && t0[key + [name]].kind != Dir
    requires t' == if Unlinkable(t0[key + [name]].kind) && key + [name] !in env.stuck then t - {key + [name]} else t
    requires !Shielded(env, key + [name])
    ensures WipedTo(env, t0, t', key, done + {name})
  {
    hide WellFormed, Shielded, Pinned;
    var child := key + [name];
    LeafSurvives(env, t0, child);
    LeafPinned(env, t0, child);
    forall k | k in t0
      ensures k in t' <==> !(key < k && k[|key|] in done + {name} && !Survives(env, t0, k))
    {
      if key < k { ThroughChild(key, name, k); }
    }
  }

  lemma LeafPinned(env: Env, t: Tree, k: Key)
    requires k in t && k != [] && t[k].kind != Dir && !Shielded(env, k)
    ensures Pinned(env, t, k) <==> !Unlinkable(t[k].kind) || k in env.stuck
  {
  }

  /** Survival is decided inside the subtree. */
  lemma SubtreeSurvives(env: Env, t0: Tree, t: Tree, top: Key, k: Key)
    requires top <= k && top != []
    requires forall d | top <= d :: (d in t <==> d in t0) && (d in t ==> t[d] == t0[d])
    ensures Survives(env, t, k) <==> Survives(env, t0, k)
  {
    if Survives(env, t, k) {
      var d :| d in t && k <= d && Pinned(env, t, d);
      assert top <= d && Pinned(env, t0, d);
    }
    if Survives(env, t0, k) {
      var d :| d in t0 && k <= d && Pinned(env, t0, d);
      assert top <= d && Pinned(env, t, d);
    }
  }

  /** Whether any entry is left below a key. */
  predicate Occupied(t: Tree, key: Key) { exists k | k in t :: key < k }

  /** rmdir fails on a directory that is not empty, and where the kernel refuses. */
  function Rmdir(env: Env, t: Tree, key: Key): Tree {
    if Occupied(t, key) || key in env.stuck then t else t - {key}
  }

  lemma UntouchedSubtree(env: Env, t0: Tree, t: Tree, key: Key, done: set<string>, name: string)
    requires WipedTo(env, t0, t, key, done) && name !in done
    ensures forall d | key + [name] <= d :: (d in t <==> d in t0) && (d in t ==> t[d] == t0[d])
  {
    forall d | key + [name] <= d ensures (d in t <==> d in t0) && (d in t ==> t[d] == t0[d]) {
      ThroughChild(key, name, d);
    }
  }

  lemma DirSurvivesThrough(env: Env, t0: Tree, child: Key) returns (d: Key)
    requires child in t0 && child != [] && t0[child].kind == Dir && !Shielded(env, child)
    requires Survives(env, t0, child) && child !in env.stuck
    ensures d in t0 && child < d && Survives(env, t0, d)
  {
    hide Shielded;
    d :| d in t0 && child <= d && Pinned(env, t0, d);
    assert d != child;
    assert d <= d;
  }

  lemma SurvivesAbove(env: Env, t0: Tree, child: Key, k: Key)
    requires child in t0 && child <= k && child != [] && Survives(env, t0, k)
    ensures Survives(env, t0, child)
  {
    hide Pinned;
    var d :| d in t0 && k <= d && Pinned(env, t0, d);
    assert child <= d;
  }

  lemma StuckSurvives(env: Env, t0: Tree, child: Key)
    requires child in t0 && child != [] && child in env.stuck
    ensures Survives(env, t0, child)
  {
    assert child <= child && Pinned(env, t0, child);
  }

  /** After its contents are wiped, a directory is occupied exactly if something below it survives. */
  lemma DirSurvives(env: Env, t0: Tree, t1: Tree, child: Key)
    requires child in t0 && child != [] && t0[child].kind == Dir && !Shielded(env, child)
    requires forall k | k in t0 && child < k :: k in t1 <==> Survives(env, t0, k)
    requires forall k | k in t1 :: k in t0
    ensures Survives(env, t0, child) <==> Occupied(t1, child) || child in env.stuck
  {
    hide Shielded, Survives;
    if child in env.stuck {
      StuckSurvives(env, t0, child);
    } else if Survives(env, t0, child) {
      var d := DirSurvivesThrough(env, t0, child);
      assert d in t1;
    } else if Occupied(t1, child) {
      var k :| k in t1 && child < k;
      SurvivesAbove(env, t0, child, k);
    }
  }

  lemma ChildWiped(env: Env, t0: Tree, t: Tree, t1: Tree, key: Key, done: set<string>, name: string)
    requires WipedTo(env, t0, t, key, done) && name !in done && WipedBelow(env, t, t1, key + [name])
    ensures forall k | k in t0 && key + [name] < k :: k in t1 <==> Survives(env, t0, k)
    ensures forall k | k in t0 && !(key + [name] < k) :: k in t1 <==> k in t
    ensures forall k | k in t1 :: k in t0 && t1[k] == t0[k]
  {
    hide Survives;
    var child := key + [name];
    UntouchedSubtree(env, t0, t, key, done, name);
    forall k | k in t0 && child < k ensures k in t1 <==> Survives(env, t0, k) {
      assert child <= k && k in t;
      SubtreeSurvives(env, t0, t, child, k);
    }
  }

  lemma DirStep(env: Env, t0: Tree, t: Tree, t1: Tree, key: Key, done: set<string>, name: string)
    requires WipedTo(env, t0, t, key, done) && name !in done
    requires key + [name] in t0 && t0[key + [name]].kind == Dir && !Shielded(env, key + [name])
    requires WipedBelow(env, t, t1, key + [name])
    ensures WipedTo(env, t0, Rmdir(env, t1, key + [name]), key, done + {name})
  {
    hide Shielded, Survives, Occupied, WipedBelow;
    var child := key + [name];
    ChildWiped(env, t0, t, t1, key, done, name);
    DirSurvives(env, t0, t1, child);
    UntouchedSubtree(env, t0, t, key, done, name);
    assert child <= child && child in t1;
    var t' := Rmdir(env, t1, child);
    forall k | k in t0
      ensures k in t' <==> !(key < k && k[|key|] in done + {name} && !Survives(env, t0, k))
    {
      if key < k { ThroughChild(key, name, k); }
      if child < k {
        assert k in t' <==> k in t1;
      } else if k != child {
        assert k in t' <==> k in t;
      }
    }
  }

  lemma StepIsPartial(env: Env, t0: Tree, t: Tree, t1: Tree, key: Key, done: set<string>, name: string)
    requires WipedTo(env, t0, t, key, done) && name !in done && PartlyWiped(env, t, t1, key + [name])
    ensures PartlyWiped(env, t0, t1, key)
  {
    UntouchedSubtree(env, t0, t, key, done, name);
    forall k | k in t0 && k !in t1 ensures key < k && !Survives(env, t0, k) {
      if k in t { SubtreeSurvives(env, t0, t, key + [name], k); }
    }
  }

  lemma UntouchedChild(env: Env, t0: Tree, t: Tree, key: Key, done: set<string>, name: string)
    requires WipedTo(env, t0, t, key, done) && name !in done && key + [name] in t0
    ensures key + [name] in t && t[key + [name]] == t0[key + [name]] && t.Keys <= t0.Keys
  {
    UntouchedSubtree(env, t0, t, key, done, name);
    assert key + [name] <= key + [name];
  }

  lemma NothingWiped(env: Env, t: Tree, key: Key)
    ensures WipedTo(env, t, t, key, {}) && PartlyWiped(env, t, t, key)
  {
  }

  lemma AllDone(env: Env, t0: Tree, t: Tree, key: Key, names: seq<string>, done: set<string>)
    requires WellFormed(t0) && IsListing(t0, key, names) && WipedTo(env, t0, t, key, done)
    requires Visited(names, |names|, done)
    ensures WipedBelow(env, t0, t, key)
  {
    hide Survives, WellFormed, IsListing, IsDot;
    forall k | k in t0 && key < k ensures k[|key|] in done {
      ListedComponent(t0, key, names, k);
    }
  }

  /** Wiping again removes nothing more: what survived is still shielded by what survived. */
  lemma SurvivorsStaySurvivors(env: Env, t: Tree, k: Key)
    requires Survives(env, t, k)
    ensures Survives(env, map x | x in t && Survives(env, t, x) :: t[x], k)
  {
    var t' := map x | x in t && Survives(env, t, x) :: t[x];
    if k != [] {
      var d :| d in t && k <= d && Pinned(env, t, d);
      assert d <= d && Survives(env, t, d);
      assert d in t' && Pinned(env, t', d);
    }
  }

  lemma RemovalKeepsWellFormed(t: Tree, k: Key)
    requires WellFormed(t) && !Occupied(t, k)
    ensures WellFormed(t - {k})
  {
    var t' := t - {k};
    forall x | x in t' && x != []
      ensures IsEntryName(x[|x| - 1]) && x[..|x| - 1] in t' && t'[x[..|x| - 1]].kind == Dir
    {
      assert x[..|x| - 1] < x;
    }
  }

  // ---- When a wipe succeeds ----

  /** Every directory at or below `key` that is not shielded can be opened. */
  ghost predicate Opens(env: Env, t: Tree, key: Key) {
    forall d | d in t && key <= d && t[d].kind == Dir && !Shielded(env, d) :: d !in env.closed
  }

  ghost predicate OpensTo(env: Env, t: Tree, key: Key, done: set<string>) {
    forall d | d in t && key < d && d[|key|] in done && t[d].kind == Dir && !Shielded(env, d) :: d !in env.closed
  }

  lemma NothingOpens(env: Env, t: Tree, key: Key)
    ensures OpensTo(env, t, key, {})
    ensures key in t && t[key].kind == Dir && !Shielded(env, key) && key in env.closed ==> !Opens(env, t, key)
  {
    hide Shielded;
    assert key <= key;
  }

  lemma OpensStep(env: Env, t: Tree, key: Key, done: set<string>, name: string)
    requires OpensTo(env, t, key, done)
    ensures Opens(env, t, key + [name]) ==> OpensTo(env, t, key, done + {name})
    ensures !Opens(env, t, key + [name]) ==> !Opens(env, t, key)
  {
    hide Shielded;
    forall d | d in t && key < d { ThroughChild(key, name, d); }
    if !Opens(env, t, key + [name]) {
      var d :| d in t && key + [name] <= d && t[d].kind == Dir && !Shielded(env, d) && d in env.closed;
      assert key <= d;
    }
  }

  lemma AllOpen(env: Env, t: Tree, key: Key, names: seq<string>, done: set<string>)
    requires WellFormed(t) && IsListing(t, key, names) && Visited(names, |names|, done)
    requires OpensTo(env, t, key, done) && key !in env.closed
    ensures Opens(env, t, key)
  {
    hide Shielded, WellFormed, IsListing, IsDot;
    forall d | d in t && key <= d && t[d].kind == Dir && !Shielded(env, d) ensures d !in env.closed {
      if d != key { ListedComponent(t, key, names, d); }
    }
  }

  lemma SkippedOpens(env: Env, t: Tree, child: Key)
    requires child != [] && Excluded(env, child)
    ensures Opens(env, t, child)
  {
    hide Excluded;
    forall d | d in t && child <= d ensures Shielded(env, d) {
      assert child[..|child|] == child && Shielded(env, child);
      ShieldedBelow(env, child, d);
    }
  }

  lemma LeafOpens(env: Env, t: Tree, child: Key)
    requires WellFormed(t) && child in t && child != [] && t[child].kind != Dir
    ensures Opens(env, t, child)
  {
    hide Shielded, Survives, Pinned;
    LeafSurvives(env, t, child);
  }

  lemma SameOpens(env: Env, t0: Tree, t: Tree, top: Key)
    requires forall d | top <= d :: (d in t <==> d in t0) && (d in t ==> t[d] == t0[d])
    ensures Opens(env, t, top) <==> Opens(env, t0, top)
  {
    hide Shielded;
  }

  class TWPartition {
    var tree: Tree
    const mountPoint: string
    const exclusions: TWExclude
    const stuck: set<Key>  // entries whose removal the kernel refuses
    const closed: set<Key>  // directories that cannot be opened

    constructor (t: Tree, mount: string, e: TWExclude, s: set<Key>, c: set<Key>)
      ensures tree == t && mountPoint == mount && exclusions == e && stuck == s && closed == c
    {
      tree, mountPoint, exclusions, stuck, closed := t, mount, e, s, c;
    }

    function GetEnv(): Env
      reads exclusions
    {
      Env(mountPoint, exclusions.relativedir, exclusions.absolutedir, stuck, closed)
    }

    /** Deletes one entry that a listing returned. */
    method WipeEntry(key: Key, name: string, dir: string, ghost t0: Tree, ghost done: set<string>) returns (ok: bool)
      requires WellFormed(tree) && WellFormed(t0) && WipedTo(GetEnv(), t0, tree, key, done) && name !in done
      requires key + [name] in t0 && IsEntryName(name) && dir == PathOf(GetEnv(), key + [name])
      requires !Shielded(GetEnv(), key)
      modifies this`tree
      ensures WellFormed(tree)
      ensures ok ==> WipedTo(GetEnv(), t0, tree, key, done + {name})
      ensures !ok ==> PartlyWiped(GetEnv(), t0, tree, key)
      ensures ok <==> Opens(GetEnv(), t0, key + [name])
      decreases |Below(t0, key)|, 0
    {
      hide Shielded, Survives, WipedTo, WipedBelow, PartlyWiped, Below, Rmdir, Skips, Rooted, WellFormed, Opens;
      var env := GetEnv();
      var child := key + [name];
      ghost var before := tree;
      UntouchedChild(env, t0, tree, key, done, name);
      var skip := exclusions.CheckSkipDirs(dir);
      if skip {
        SkipStep(env, t0, tree, key, done, name);
        SkippedOpens(env, t0, child);
        return true;
      }
      NotShielded(env, key, name);
      if tree[child].kind == Dir {
        BelowShrinks(t0, tree, key, child);
        UntouchedSubtree(env, t0, tree, key, done, name);
        SameOpens(env, t0, tree, child);
        ok := WipeFunc(child, dir + "/");
        if !ok {
          StepIsPartial(env, t0, before, tree, key, done, name);
          return;
        }
        DirStep(env, t0, before, tree, key, done, name);
        RemoveDirectory(child);
      } else {
        UnlinkEntry(child);
        LeafStep(env, t0, before, tree, key, done, name);
        LeafOpens(env, t0, child);
        ok := true;
      }
    }

    /** unlink, for the kinds the code unlinks. */
    method UnlinkEntry(child: Key)
      requires WellFormed(tree) && child in tree && child != [] && tree[child].kind != Dir
      modifies this`tree
      ensures WellFormed(tree)
      ensures tree == if Unlinkable(old(tree)[child].kind) && child !in stuck then old(tree) - {child} else old(tree)
    {
      if Unlinkable(tree[child].kind) && child !in stuck {
        LeafSurvives(GetEnv(), tree, child);
        RemovalKeepsWellFormed(tree, child);
        tree := tree - {child};
      }
    }

    /** rmdir. */
    method RemoveDirectory(child: Key)
      requires WellFormed(tree)
      modifies this`tree
      ensures WellFormed(tree) && tree == Rmdir(GetEnv(), old(tree), child)
    {
      if !Occupied(tree, child) && child !in stuck {
        RemovalKeepsWellFormed(tree, child);
        tree := tree - {child};
      }
    }

    /** Wipe_Data_Without_Wiping_Media_Func on the directory `key`, whose path with a slash is `parent`. */
    method WipeFunc(key: Key, parent: string) returns (ok: bool)
      requires WellFormed(tree) && key in tree && tree[key].kind == Dir
      requires parent == PathOf(GetEnv(), key) + "/" && !Shielded(GetEnv(), key)
      modifies this`tree
      ensures WellFormed(tree)
      ensures ok ==> WipedBelow(GetEnv(), old(tree), tree, key)
      ensures !ok ==> PartlyWiped(GetEnv(), old(tree), tree, key)
      ensures ok <==> Opens(GetEnv(), old(tree), key)
      decreases |Below(tree, key)|, 1
    {
      hide Shielded, Survives, WipedTo, WipedBelow, PartlyWiped, Below, Rooted, WellFormed, IsListing, IsDot, Visited;
      hide Opens, OpensTo;
      ghost var env, t0 := GetEnv(), tree;
      NothingWiped(env, tree, key);
      NothingOpens(env, tree, key);
      if key in closed {
        return false;
      }
      ghost var done: set<string> := {};
      var names := ListDirectory(tree, key);
      NothingVisited(names);
      var i := 0;
      while i < |names|
        invariant 0 <= i <= |names| && WellFormed(tree)
        invariant Visited(names, i, done)
        invariant WipedTo(env, t0, tree, key, done) && OpensTo(env, t0, key, done)
      {
        VisitStep(names, i, done);
        if !IsDot(names[i]) {
          EntryPath(mountPoint, key, names[i]);
          ListedEntry(t0, key, names, i, done);
          ok := WipeEntry(key, names[i], parent + names[i], t0, done);
          OpensStep(env, t0, key, done, names[i]);
          if !ok {
            return;
          }
          done := done + {names[i]};
        }
        i := i + 1;
      }
      AllDone(env, t0, tree, key, names, done);
      AllOpen(env, t0, key, names, done);
      return true;
    }

    /**
     Wiping is exact. On success the entries that remain are precisely the root, the excluded
     entries and everything below them, the entries of kinds that are not unlinked or that the
     kernel keeps, and the directories above those. On failure nothing else is missing. It
     succeeds if and only if every directory that is not shielded can be opened.
     */
    method WipeDataWithoutWipingMedia() returns (ok: bool)
      requires WellFormed(tree) && [] in tree && tree[[]].kind == Dir
      modifies this`tree
      ensures ok ==> tree == map k | k in old(tree) && Survives(GetEnv(), old(tree), k) :: old(tree)[k]
      ensures forall k | k in old(tree) && Survives(GetEnv(), old(tree), k) :: k in tree && tree[k] == old(tree)[k]
      ensures tree.Keys <= old(tree).Keys
      ensures ok <==> forall d | d in old(tree) && old(tree)[d].kind == Dir && !Shielded(GetEnv(), d) :: d !in closed
    {
      ok := WipeFunc([], mountPoint + "/");
    }
  }

  lemma NotShielded(env: Env, key: Key, name: string)
    requires !Shielded(env, key) && !Excluded(env, key + [name])
    ensures !Shielded(env, key + [name])
  {
    var child := key + [name];
    forall j | 1 <= j <= |child| ensures !Excluded(env, child[..j]) {
      if j < |child| { assert child[..j] == key[..j]; } else { assert child[..j] == child; }
    }
  }
}
