/** A mounted file tree: a finite map from component lists to the entries they name. */
module FileTree {
  import opened Common
  import opened Paths
  import opened Exclude

  datatype Kind = Dir | Reg | Lnk | Fifo | Sock | Chr | Blk | UnknownKind

  datatype Meta = Meta(kind: Kind, size: nat)

  type Key = seq<string>

  type Tree = map<Key, Meta>

  predicate IsEntryName(name: string) { IsName(name) && name != "." && name != ".." }

  /** Every entry but the root lies in a directory of the tree. */
  predicate WellFormed(t: Tree) {
    forall k | k in t && k != [] ::
      IsEntryName(k[|k| - 1]) && k[..|k| - 1] in t && t[k[..|k| - 1]].kind == Dir
  }

  /** A tree together with what the code is told about it and what the kernel refuses to do. */
  datatype Env = Env(mount: string, relative: seq<string>, absolute: seq<string>, stuck: set<Key>, closed: set<Key>)

  function PathOf(env: Env, k: Key): string { env.mount + Rooted(k) }

  predicate Excluded(env: Env, k: Key) { k != [] && Skips(env.relative, env.absolute, PathOf(env, k)) }

  lemma {:induction false} RootedSnoc(cs: seq<string>, c: string)
    ensures Rooted(cs + [c]) == Rooted(cs) + "/" + c
  {
    RootedEnds(cs + [c]);
    assert (cs + [c])[..|cs|] == cs;
  }

  lemma {:induction false} AncestorIsDir(t: Tree, d: Key, k: Key)
    requires WellFormed(t) && k in t && d < k
    ensures d in t && t[d].kind == Dir && IsEntryName(k[|d|])
    decreases |k|
  {
    var p := k[..|k| - 1];
    if d != p {
      AncestorIsDir(t, d, p);
      assert k[|d|] == p[|d|];
    } else {
      assert k[|d|] == k[|k| - 1];
    }
  }

  // ---- Directory listings ----

  /** A readdir order of a directory, with the two dot entries. */
  predicate IsListing(t: Tree, key: Key, names: seq<string>) {
    && (forall i, j | 0 <= i < j < |names| :: names[i] != names[j])
    && (forall i | 0 <= i < |names| :: names[i] == "." || names[i] == ".." || key + [names[i]] in t)
    && (forall k | k in t && key < k && |k| == |key| + 1 :: k[|key|] in names)
    && "." in names && ".." in names
  }

  function ChildNames(t: Tree, key: Key): set<string> {
    set k | k in t && key < k && |k| == |key| + 1 :: k[|key|]
  }

  lemma {:induction false} Enumerate(names: set<string>) returns (list: seq<string>)
    ensures forall i, j | 0 <= i < j < |list| :: list[i] != list[j]
    ensures forall n :: n in list <==> n in names
    decreases |names|
  {
    if names == {} {
      list := [];
    } else {
      var n :| n in names;
      var rest := Enumerate(names - {n});
      list := [n] + rest;
    }
  }

  lemma ChildNameIsEntry(t: Tree, key: Key, n: string)
    requires WellFormed(t) && n in ChildNames(t, key)
    ensures key + [n] in t && IsEntryName(n)
  {
    hide IsEntryName;
    var k :| k in t && key < k && |k| == |key| + 1 && k[|key|] == n;
    assert k == key + [n];
    assert IsEntryName(k[|k| - 1]);
  }

  lemma EntryNameIsNoDot(n: string)
    requires IsEntryName(n)
    ensures n != "." && n != ".."
  {
  }

  lemma ListingExists(t: Tree, key: Key)
    requires WellFormed(t)
    ensures exists names :: IsListing(t, key, names)
  {
    hide WellFormed, IsEntryName;
    var names := Enumerate(ChildNames(t, key));
    var all := [".", ".."] + names;
    forall n | n in names ensures key + [n] in t && n != "." && n != ".." {
      ChildNameIsEntry(t, key, n);
      EntryNameIsNoDot(n);
    }
    assert forall i | 2 <= i < |all| :: all[i] == names[i - 2] && all[i] in names;
    forall k | k in t && key < k && |k| == |key| + 1 ensures k[|key|] in all {
      assert k[|key|] in ChildNames(t, key);
      assert k[|key|] in names;
    }
    assert all[0] == "." && all[1] == "..";
    assert IsListing(t, key, all);
  }

  /** readdir, in an order of the file system's choice. */
  method ListDirectory(t: Tree, key: Key) returns (names: seq<string>)
    requires WellFormed(t)
    ensures IsListing(t, key, names)
  {
    ListingExists(t, key);
    names :| IsListing(t, key, names);
  }

  /** `done` holds the first `i` names of a listing, without the dot entries. */
  predicate Visited(names: seq<string>, i: nat, done: set<string>) {
    && i <= |names|
    && (forall j | 0 <= j < i && !IsDot(names[j]) :: names[j] in done)
    && (forall n | n in done :: n in names[..i])
  }

  lemma VisitStep(names: seq<string>, i: nat, done: set<string>)
    requires i < |names| && Visited(names, i, done)
    ensures Visited(names, i + 1, if IsDot(names[i]) then done else done + {names[i]})
  {
    assert names[..i + 1] == names[..i] + [names[i]];
  }

  lemma NothingVisited(names: seq<string>)
    ensures Visited(names, 0, {})
  {
  }

  /** Whatever lies below a directory lies below one of its listed names. */
  lemma ListedComponent(t: Tree, key: Key, names: seq<string>, k: Key)
    requires WellFormed(t) && IsListing(t, key, names) && k in t && key < k
    ensures k[|key|] in names && !IsDot(k[|key|])
  {
    hide WellFormed;
    var child := k[..|key| + 1];
    if child != k { AncestorIsDir(t, child, k); }
    assert child in t && key < child && |child| == |key| + 1;
    assert child[|key|] == k[|key|];
    AncestorIsDir(t, key, k);
  }

  lemma ListedEntry(t: Tree, key: Key, names: seq<string>, i: nat, done: set<string>)
    requires WellFormed(t) && IsListing(t, key, names) && Visited(names, i, done) && i < |names| && !IsDot(names[i])
    ensures key + [names[i]] in t && IsEntryName(names[i]) && names[i] !in done
  {
    var child := key + [names[i]];
    assert child[|child| - 1] == names[i];
  }

  lemma EntryPath(mount: string, key: Key, name: string)
    ensures mount + Rooted(key) + "/" + name == mount + Rooted(key + [name])
  {
    RootedSnoc(key, name);
  }

  /** The keys strictly below a directory, the measure of both tree walks. */
  function Below(t: Tree, key: Key): set<Key> { set k | k in t && key < k }

  lemma BelowShrinks(t0: Tree, t: Tree, key: Key, child: Key)
    requires key < child && child in t0 && t.Keys <= t0.Keys
    ensures |Below(t, child)| < |Below(t0, key)|
  {
    assert child in Below(t0, key) && child !in Below(t, child);
    assert Below(t, child) <= Below(t0, key) - {child};
    SubsetSize(Below(t, child), Below(t0, key) - {child});
  }

  lemma SubsetSize<T>(a: set<T>, b: set<T>)
    requires a <= b
    ensures |a| <= |b|
  {
    assert b == a + (b - a);
  }
}
