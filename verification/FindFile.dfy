/**
 Find_File: a depth-first search for a regular file, through real subdirectories first and
 resolved symlinks after them, that remembers the path strings it has opened.
 */
module FindFile {
  import opened Common

  datatype Kind = Directory(node: nat) | Symlink | Regular | OtherKind

  datatype Entry = Entry(name: string, kind: Kind)

  /**
   `nodes` holds the directories that can be opened, with their entries in readdir order.
   `resolve` maps every path string to the directory it names, if any; there are infinitely
   many path strings for each directory. `realpath` resolves a symlink to a canonical path.
   */
  datatype FileSystem = FileSystem(
    nodes: map<nat, seq<Entry>>,
    resolve: string -> Option<nat>,
    realpath: string -> Option<string>,
    canonical: set<string>,
    height: nat -> nat)

  function Child(path: string, name: string): string { path + "/" + name }

  /** What opendir and readdir find under a path. */
  function Open(fs: FileSystem, path: string): Option<seq<Entry>> {
    match fs.resolve(path)
    case Some(n) => if n in fs.nodes then Some(fs.nodes[n]) else None
    case None => None
  }

  ghost predicate DirectoryOk(fs: FileSystem, path: string, n: nat, e: Entry) {
    match e.kind
    case Directory(m) => fs.resolve(path + "/" + e.name) == Some(m) && fs.height(m) < fs.height(n)
    case Symlink =>
      var t := fs.realpath(path + "/" + e.name);
      t.Some? ==> t.value in fs.canonical
    case _ => true
  }

  /**
   Real directories form finite trees, path lookup follows them, what a symlink resolves to
   depends only on the directory it lies in, and realpath has finitely many results.
   */
  ghost predicate WellFormed(fs: FileSystem) {
    && (forall path: string, i: nat ::
          Open(fs, path).Some? && i < |Open(fs, path).value| && !IsDot(Open(fs, path).value[i].name) ==>
            DirectoryOk(fs, path, fs.resolve(path).value, Open(fs, path).value[i]))
    && (forall p: string, q: string, i: nat {:trigger fs.resolve(p), fs.resolve(q), Open(fs, p).value[i]} ::
          fs.resolve(p) == fs.resolve(q) && Open(fs, p).Some? && i < |Open(fs, p).value|
          && Open(fs, p).value[i].kind == Symlink ==>
            fs.realpath(p + "/" + Open(fs, p).value[i].name) == fs.realpath(q + "/" + Open(fs, p).value[i].name))
  }

  // ---- What the search is for ----

  predicate HasFile(fs: FileSystem, n: nat, filename: string) {
    n in fs.nodes && exists i :: 0 <= i < |fs.nodes[n]| && IsMatch(fs.nodes[n][i], filename)
  }

  predicate IsMatch(e: Entry, filename: string) { !IsDot(e.name) && e.kind == Regular && e.name == filename }

  /** Entry `i` of the directory at `path` leads to directory `m`: as a subdirectory or by a symlink. */
  predicate Leads(fs: FileSystem, path: string, e: Entry, m: nat) {
    && !IsDot(e.name)
    && match e.kind
       case Directory(k) => k == m
       case Symlink =>
         var t := fs.realpath(path + "/" + e.name);
         t.Some? && fs.resolve(t.value) == Some(m)
       case _ => false
  }

  ghost predicate Edge(fs: FileSystem, n: nat, m: nat) {
    exists path: string, i: nat ::
      fs.resolve(path) == Some(n) && n in fs.nodes && i < |fs.nodes[n]| && Leads(fs, path, fs.nodes[n][i], m)
  }

  ghost predicate Trail(fs: FileSystem, trail: seq<nat>) {
    trail != [] && forall k: nat :: k + 1 < |trail| ==> Edge(fs, trail[k], trail[k + 1])
  }

  ghost predicate Reachable(fs: FileSystem, n: nat, m: nat) {
    exists trail: seq<nat> :: Trail(fs, trail) && trail[0] == n && trail[|trail| - 1] == m
  }

  lemma ReachesItself(fs: FileSystem, n: nat)
    ensures Reachable(fs, n, n)
  {
    assert Trail(fs, [n]);
  }

  lemma EdgeThenReach(fs: FileSystem, n: nat, m: nat, k: nat)
    requires Edge(fs, n, m) && Reachable(fs, m, k)
    ensures Reachable(fs, n, k)
  {
    var trail: seq<nat> :| Trail(fs, trail) && trail[0] == m && trail[|trail| - 1] == k;
    var longer := [n] + trail;
    forall j: nat | j + 1 < |longer| ensures Edge(fs, longer[j], longer[j + 1]) {
      if j != 0 { assert longer[j] == trail[j - 1] && longer[j + 1] == trail[j]; }
    }
    assert Trail(fs, longer);
  }

  // ---- Bookkeeping of a finished search ----

  /** An entry needs nothing more: no match, and where it leads has been searched. */
  predicate Settled(fs: FileSystem, filename: string, path: string, e: Entry, searched: seq<string>) {
    IsDot(e.name) ||
    match e.kind
    case Directory(_) => Child(path, e.name) in searched
    case Symlink =>
      var t := fs.realpath(Child(path, e.name));
      t.Some? ==> t.value in searched
    case Regular => e.name != filename
    case OtherKind => true
  }

  predicate Finished(fs: FileSystem, filename: string, path: string, searched: seq<string>) {
    var entries := Open(fs, path);
    entries.Some? ==> forall i | 0 <= i < |entries.value| :: Settled(fs, filename, path, entries.value[i], searched)
  }

  /** Every path that was searched since `from` is finished. */
  predicate AllFinished(fs: FileSystem, filename: string, from: nat, searched: seq<string>) {
    forall k | from <= k < |searched| :: Finished(fs, filename, searched[k], searched)
  }

  lemma NothingNew(fs: FileSystem, filename: string, searched: seq<string>)
    ensures AllFinished(fs, filename, |searched|, searched)
  {
  }

  lemma EntryIsOk(fs: FileSystem, path: string, i: nat)
    requires WellFormed(fs) && Open(fs, path).Some? && i < |Open(fs, path).value|
    requires !IsDot(Open(fs, path).value[i].name)
    ensures DirectoryOk(fs, path, fs.resolve(path).value, Open(fs, path).value[i])
  {
  }

  lemma FinishedGrows(fs: FileSystem, filename: string, from: nat, s: seq<string>, t: seq<string>)
    requires s <= t && from <= |s| && AllFinished(fs, filename, from, s) && AllFinished(fs, filename, |s|, t)
    ensures AllFinished(fs, filename, from, t)
  {
    forall k | from <= k < |t| ensures Finished(fs, filename, t[k], t) {
      if k < |s| {
        assert t[k] == s[k] && Finished(fs, filename, s[k], s);
        assert forall p | p in s :: p in t;
      }
    }
  }

  /** A directory whose entries all lead to searched paths completes the searches it started. */
  lemma ClosePath(fs: FileSystem, filename: string, from: nat, path: string, searched: seq<string>)
    requires from < |searched| && searched[from] == path
    requires AllFinished(fs, filename, from + 1, searched) && Finished(fs, filename, path, searched)
    ensures AllFinished(fs, filename, from, searched)
  {
  }

  /** The canonical paths that are not yet known to the search of `path`. */
  function Unseen(fs: FileSystem, searched: seq<string>, path: string): set<string> {
    set c | c in fs.canonical && c !in searched && c != path
  }

  /** How deep real directories can still nest below a path that is about to be opened. */
  function Depth(fs: FileSystem, searched: seq<string>, path: string): nat {
    if path in searched then 0 else match fs.resolve(path) case Some(n) => fs.height(n) + 2 case None => 1
  }

  lemma SubdirectoryDescends(fs: FileSystem, s: seq<string>, path: string, s': seq<string>, child: string)
    requires path !in s && s + [path] <= s' && fs.resolve(path).Some?
    requires exists e | DirectoryOk(fs, path, fs.resolve(path).value, e) ::
               e.kind.Directory? && child == Child(path, e.name)
    ensures |Unseen(fs, s', child)| <= |Unseen(fs, s, path)|
    ensures Depth(fs, s', child) < Depth(fs, s, path)
  {
    UnseenShrinks(fs, s, path, s', child);
  }

  lemma UnseenShrinks(fs: FileSystem, s: seq<string>, path: string, s': seq<string>, child: string)
    requires s + [path] <= s'
    ensures Unseen(fs, s', child) <= Unseen(fs, s, path)
    ensures |Unseen(fs, s', child)| <= |Unseen(fs, s, path)|
  {
    assert forall p | p in s + [path] :: p in s';
    assert path in s + [path];
    assert forall p | p in s :: p in s + [path];
    Subset(Unseen(fs, s', child), Unseen(fs, s, path));
  }

  lemma {:induction false} Subset(a: set<string>, b: set<string>)
    requires a <= b
    ensures |a| <= |b| && (a != b ==> |a| < |b|)
  {
    assert b == a + (b - a);
    assert a != b ==> b - a != {};
  }

  lemma SymlinkDescends(fs: FileSystem, s: seq<string>, path: string, s': seq<string>, target: string)
    requires path !in s && s + [path] <= s' && fs.resolve(path).Some?
    requires exists e | DirectoryOk(fs, path, fs.resolve(path).value, e) ::
               e.kind.Symlink? && fs.realpath(Child(path, e.name)) == Some(target)
    ensures |Unseen(fs, s', target)| < |Unseen(fs, s, path)| ||
            (|Unseen(fs, s', target)| <= |Unseen(fs, s, path)| && Depth(fs, s', target) < Depth(fs, s, path))
  {
    UnseenShrinks(fs, s, path, s', target);
    if target !in s' {
      assert path in s + [path] && forall p | p in s + [path] :: p in s';
      assert target in Unseen(fs, s, path) by {
        assert forall p | p in s :: p in s + [path];
      }
      Subset(Unseen(fs, s', target), Unseen(fs, s, path));
    }
  }

  /** A found path is a regular file of that name in a directory reachable from `path`. */
  ghost predicate Found(fs: FileSystem, filename: string, path: string, result: string) {
    exists q: string, m: nat ::
      && fs.resolve(q) == Some(m) && result == q + "/" + filename && HasFile(fs, m, filename)
      && fs.resolve(path).Some? && Reachable(fs, fs.resolve(path).value, m)
  }

  lemma FoundHere(fs: FileSystem, filename: string, path: string)
    requires fs.resolve(path).Some? && HasFile(fs, fs.resolve(path).value, filename)
    ensures Found(fs, filename, path, Child(path, filename))
  {
    ReachesItself(fs, fs.resolve(path).value);
  }

  lemma FoundThrough(fs: FileSystem, filename: string, path: string, i: nat, next: string, result: string)
    requires WellFormed(fs) && Open(fs, path).Some? && i < |Open(fs, path).value|
    requires !IsDot(Open(fs, path).value[i].name)
    requires var e := Open(fs, path).value[i];
             (e.kind.Directory? && next == Child(path, e.name)) ||
             (e.kind.Symlink? && fs.realpath(Child(path, e.name)) == Some(next))
    requires Found(fs, filename, next, result)
    ensures Found(fs, filename, path, result)
  {
    hide HasFile, Reachable, WellFormed;
    var e := Open(fs, path).value[i];
    var q: string, m: nat :|
      && fs.resolve(q) == Some(m) && result == q + "/" + filename && HasFile(fs, m, filename)
      && fs.resolve(next).Some? && Reachable(fs, fs.resolve(next).value, m);
    var n, k := fs.resolve(path).value, fs.resolve(next).value;
    EntryIsOk(fs, path, i);
    assert Leads(fs, path, fs.nodes[n][i], k);
    assert Edge(fs, n, k);
    EdgeThenReach(fs, n, k, m);
  }

  // ---- What one directory listing contributes ----

  /** Each path is that of a subdirectory, or each that of a symlink, of the directory. */
  ghost predicate Leading(fs: FileSystem, path: string, paths: seq<string>, directories: bool)
    requires Open(fs, path).Some?
  {
    var entries := Open(fs, path).value;
    forall p <- paths :: exists i | 0 <= i < |entries| :: IsWay(path, entries[i], p, directories)
  }

  predicate IsWay(path: string, e: Entry, next: string, directories: bool) {
    && !IsDot(e.name) && next == Child(path, e.name)
    && (if directories then e.kind.Directory? else e.kind.Symlink?)
  }

  /** The first `n` entries: no match among them, and their ways on are listed. */
  predicate Covered(
    fs: FileSystem, path: string, n: nat, filename: string, dirs: seq<string>, symlinks: seq<string>)
    requires Open(fs, path).Some? && n <= |Open(fs, path).value|
  {
    var entries := Open(fs, path).value;
    forall i | 0 <= i < n && !IsDot(entries[i].name) ::
      && (entries[i].kind.Directory? ==> Child(path, entries[i].name) in dirs)
      && (entries[i].kind.Symlink? ==> Child(path, entries[i].name) in symlinks)
      && !IsMatch(entries[i], filename)
  }

  predicate TargetIn(fs: FileSystem, link: string, searched: seq<string>) {
    fs.realpath(link).Some? ==> fs.realpath(link).value in searched
  }

  lemma LeadingFrom(fs: FileSystem, path: string, paths: seq<string>, directories: bool, k: nat) returns (i: nat)
    requires WellFormed(fs) && Open(fs, path).Some? && Leading(fs, path, paths, directories) && k < |paths|
    ensures i < |Open(fs, path).value| && !IsDot(Open(fs, path).value[i].name)
    ensures var e := Open(fs, path).value[i];
            && paths[k] == Child(path, e.name) && DirectoryOk(fs, path, fs.resolve(path).value, e)
            && (if directories then e.kind.Directory? else e.kind.Symlink?)
  {
    hide WellFormed, DirectoryOk;
    var entries := Open(fs, path).value;
    assert paths[k] in paths;
    i :| 0 <= i < |entries| && IsWay(path, entries[i], paths[k], directories);
    EntryIsOk(fs, path, i);
  }

  lemma CoveredIsFinished(
    fs: FileSystem, filename: string, path: string, dirs: seq<string>, symlinks: seq<string>, searched: seq<string>)
    requires Open(fs, path).Some? && Covered(fs, path, |Open(fs, path).value|, filename, dirs, symlinks)
    requires forall k | 0 <= k < |dirs| :: dirs[k] in searched
    requires forall k | 0 <= k < |symlinks| :: TargetIn(fs, symlinks[k], searched)
    ensures Finished(fs, filename, path, searched)
  {
    hide IsDot;
    var entries := Open(fs, path).value;
    forall i | 0 <= i < |entries| ensures Settled(fs, filename, path, entries[i], searched) {
      assert !IsDot(entries[i].name) ==> !IsMatch(entries[i], filename);
    }
  }

  lemma ClosedIsFinished(fs: FileSystem, filename: string, path: string, searched: seq<string>)
    requires Open(fs, path).None?
    ensures Finished(fs, filename, path, searched)
  {
  }

  // ---- The order of the search ----

  /** The subdirectories of a directory, in readdir order. */
  function DirPaths(path: string, entries: seq<Entry>): seq<string> {
    if entries == [] then [] else
      var last := entries[|entries| - 1];
      DirPaths(path, entries[..|entries| - 1])
      + (if !IsDot(last.name) && last.kind.Directory? then [path + "/" + last.name] else [])
  }

  /** Its symlinks. */
  function LinkPaths(path: string, entries: seq<Entry>): seq<string> {
    if entries == [] then [] else
      var last := entries[|entries| - 1];
      LinkPaths(path, entries[..|entries| - 1])
      + (if !IsDot(last.name) && last.kind.Symlink? then [path + "/" + last.name] else [])
  }

  lemma {:induction false} WaysOfEntries(path: string, entries: seq<Entry>, p: string)
    ensures p in DirPaths(path, entries) <==> exists i | 0 <= i < |entries| :: IsWay(path, entries[i], p, true)
    ensures p in LinkPaths(path, entries) <==> exists i | 0 <= i < |entries| :: IsWay(path, entries[i], p, false)
  {
    hide IsWay;
    if entries != [] {
      var n := |entries| - 1;
      var init := entries[..n];
      WaysOfEntries(path, init, p);
      WayOfEntry(path, entries[n], p);
      assert forall i | 0 <= i < n :: init[i] == entries[i];
      assert forall i, d | 0 <= i < n && IsWay(path, init[i], p, d) :: IsWay(path, entries[i], p, d);
    }
  }

  lemma WayOfEntry(path: string, e: Entry, p: string)
    ensures IsWay(path, e, p, true) <==> !IsDot(e.name) && e.kind.Directory? && p == path + "/" + e.name
    ensures IsWay(path, e, p, false) <==> !IsDot(e.name) && e.kind.Symlink? && p == path + "/" + e.name
  {
  }

  /** The ways on of a directory without a match. */
  lemma PathsLead(fs: FileSystem, filename: string, path: string)
    requires Open(fs, path).Some? && !HasFile(fs, fs.resolve(path).value, filename)
    ensures var entries := Open(fs, path).value;
            && Leading(fs, path, DirPaths(path, entries), true) && Leading(fs, path, LinkPaths(path, entries), false)
            && Covered(fs, path, |entries|, filename, DirPaths(path, entries), LinkPaths(path, entries))
  {
    hide DirPaths, LinkPaths;
    var entries := Open(fs, path).value;
    var dirs, links := DirPaths(path, entries), LinkPaths(path, entries);
    forall p ensures p in dirs <==> exists i | 0 <= i < |entries| :: IsWay(path, entries[i], p, true)
             ensures p in links <==> exists i | 0 <= i < |entries| :: IsWay(path, entries[i], p, false)
    {
      WaysOfEntries(path, entries, p);
    }
    forall i | 0 <= i < |entries| && !IsDot(entries[i].name)
      ensures !IsMatch(entries[i], filename)
      ensures entries[i].kind.Directory? ==> Child(path, entries[i].name) in dirs
      ensures entries[i].kind.Symlink? ==> Child(path, entries[i].name) in links
    {
      WayOfEntry(path, entries[i], Child(path, entries[i].name));
    }
  }

  /** What the symlinks resolve to; those that do not resolve are passed over. */
  function Targets(fs: FileSystem, links: seq<string>): seq<string> {
    if links == [] then [] else
      var t := fs.realpath(links[0]);
      (if t.Some? then [t.value] else []) + Targets(fs, links[1..])
  }

  /** The search as a machine with a stack: the paths to look at next and those that were looked at. */
  datatype Machine = Machine(todo: seq<string>, searched: seq<string>)

  /** The next path is new and its directory holds the file. */
  predicate IsHit(fs: FileSystem, filename: string, m: Machine) {
    && m.todo != [] && m.todo[0] !in m.searched
    && fs.resolve(m.todo[0]).Some? && HasFile(fs, fs.resolve(m.todo[0]).value, filename)
  }

  /** A known path is passed over; a new one puts its subdirectories, and then its symlinks, before the others. */
  function Next(fs: FileSystem, m: Machine): Machine
    requires m.todo != []
  {
    var path, rest, entries := m.todo[0], m.todo[1..], Open(fs, m.todo[0]);
    if path in m.searched then Machine(rest, m.searched)
    else
      Machine((if entries.None? then []
               else DirPaths(path, entries.value) + Targets(fs, LinkPaths(path, entries.value))) + rest,
              m.searched + [path])
  }

  /** `n` steps lead from `a` to `b`, none of them at a hit. */
  ghost predicate Runs(fs: FileSystem, filename: string, a: Machine, b: Machine, n: nat)
    decreases n
  {
    if n == 0 then a == b else a.todo != [] && !IsHit(fs, filename, a) && Runs(fs, filename, Next(fs, a), b, n - 1)
  }

  ghost predicate Comes(fs: FileSystem, filename: string, a: Machine, b: Machine) {
    exists n: nat :: Runs(fs, filename, a, b, n)
  }

  /** The first hit of the machine is in the directory of `result`. */
  ghost predicate FirstHit(fs: FileSystem, filename: string, a: Machine, result: string) {
    exists b: Machine ::
      Comes(fs, filename, a, b) && IsHit(fs, filename, b) && result == b.todo[0] + "/" + filename
  }

  lemma {:induction false} RunsOn(fs: FileSystem, filename: string, a: Machine, b: Machine, c: Machine, n: nat, k: nat)
    requires Runs(fs, filename, a, b, n) && Runs(fs, filename, b, c, k)
    ensures Runs(fs, filename, a, c, n + k)
    decreases n
  {
    hide Next, IsHit;
    if n > 0 { RunsOn(fs, filename, Next(fs, a), b, c, n - 1, k); }
  }

  /** What stands behind the stack does not matter. */
  lemma {:induction false} RunsAbove(
    fs: FileSystem, filename: string, a: Machine, b: Machine, n: nat, rest: seq<string>)
    requires Runs(fs, filename, a, b, n)
    ensures Runs(fs, filename, Machine(a.todo + rest, a.searched), Machine(b.todo + rest, b.searched), n)
    decreases n
  {
    hide Open, HasFile;
    if n > 0 {
      var a' := Machine(a.todo + rest, a.searched);
      RunsAbove(fs, filename, Next(fs, a), b, n - 1, rest);
      assert a'.todo[0] == a.todo[0] && a'.todo[1..] == a.todo[1..] + rest;
      NextAbove(fs, a, rest);
    }
  }

  lemma NextAbove(fs: FileSystem, a: Machine, rest: seq<string>)
    requires a.todo != []
    ensures Next(fs, Machine(a.todo + rest, a.searched)) ==
            Machine(Next(fs, a).todo + rest, Next(fs, a).searched)
  {
    hide Open;
    assert (a.todo + rest)[0] == a.todo[0] && (a.todo + rest)[1..] == a.todo[1..] + rest;
  }

  lemma ComesThen(fs: FileSystem, filename: string, a: Machine, b: Machine)
    requires Comes(fs, filename, a, b)
    ensures forall c | Comes(fs, filename, b, c) :: Comes(fs, filename, a, c)
    ensures forall r | FirstHit(fs, filename, b, r) :: FirstHit(fs, filename, a, r)
  {
    hide Runs, IsHit;
    var n: nat :| Runs(fs, filename, a, b, n);
    forall c | Comes(fs, filename, b, c) ensures Comes(fs, filename, a, c) {
      var k: nat :| Runs(fs, filename, b, c, k);
      RunsOn(fs, filename, a, b, c, n, k);
    }
  }

  /** A whole search from `path`, with more paths behind it. */
  lemma SearchAbove(fs: FileSystem, filename: string, path: string, s: seq<string>, t: seq<string>, r: string,
                    rest: seq<string>)
    ensures Comes(fs, filename, Machine([path], s), Machine([], t)) ==>
              Comes(fs, filename, Machine([path] + rest, s), Machine(rest, t))
    ensures FirstHit(fs, filename, Machine([path], s), r) ==>
              FirstHit(fs, filename, Machine([path] + rest, s), r)
  {
    hide Runs, HasFile;
    var a := Machine([path], s);
    if Comes(fs, filename, a, Machine([], t)) {
      var n: nat :| Runs(fs, filename, a, Machine([], t), n);
      RunsAbove(fs, filename, a, Machine([], t), n, rest);
      assert [] + rest == rest;
    }
    if FirstHit(fs, filename, a, r) {
      var b: Machine :| Comes(fs, filename, a, b) && IsHit(fs, filename, b) && r == b.todo[0] + "/" + filename;
      var n: nat :| Runs(fs, filename, a, b, n);
      RunsAbove(fs, filename, a, b, n, rest);
      var b' := Machine(b.todo + rest, b.searched);
      assert b'.todo[0] == b.todo[0] && IsHit(fs, filename, b');
    }
  }

  lemma OneStep(fs: FileSystem, filename: string, a: Machine)
    requires a.todo != [] && !IsHit(fs, filename, a)
    ensures Comes(fs, filename, a, Next(fs, a))
  {
    hide Next, IsHit;
    assert Runs(fs, filename, Next(fs, a), Next(fs, a), 0);
    assert Runs(fs, filename, a, Next(fs, a), 1);
  }

  lemma {:induction false} RunsToHits(
    fs: FileSystem, filename: string, a: Machine, b: Machine, c: Machine, n: nat, k: nat)
    requires Runs(fs, filename, a, b, n) && IsHit(fs, filename, b)
    requires Runs(fs, filename, a, c, k) && IsHit(fs, filename, c)
    ensures b == c
    decreases n
  {
    hide Next, IsHit;
    if n > 0 && k > 0 { RunsToHits(fs, filename, Next(fs, a), b, c, n - 1, k - 1); }
  }

  /** There is one first hit, and a match in the directory where the search starts goes before all others. */
  lemma FirstHitIsUnique(fs: FileSystem, filename: string, start: string, r: string, r': string)
    requires FirstHit(fs, filename, Machine([start], []), r)
    ensures FirstHit(fs, filename, Machine([start], []), r') ==> r == r'
    ensures fs.resolve(start).Some? && HasFile(fs, fs.resolve(start).value, filename) ==> r == start + "/" + filename
  {
    hide Runs, HasFile;
    var a := Machine([start], []);
    var b: Machine :| Comes(fs, filename, a, b) && IsHit(fs, filename, b) && r == b.todo[0] + "/" + filename;
    var n: nat :| Runs(fs, filename, a, b, n);
    if FirstHit(fs, filename, a, r') {
      var c: Machine :| Comes(fs, filename, a, c) && IsHit(fs, filename, c) && r' == c.todo[0] + "/" + filename;
      var k: nat :| Runs(fs, filename, a, c, k);
      RunsToHits(fs, filename, a, b, c, n, k);
    }
    if fs.resolve(start).Some? && HasFile(fs, fs.resolve(start).value, filename) {
      StartIsHit(fs, filename, start);
      RunsToHits(fs, filename, a, b, a, n, 0);
    }
  }

  lemma StartIsHit(fs: FileSystem, filename: string, start: string)
    requires fs.resolve(start).Some? && HasFile(fs, fs.resolve(start).value, filename)
    ensures var a := Machine([start], []); IsHit(fs, filename, a) && Runs(fs, filename, a, a, 0)
  {
  }

  lemma KnownIsPassed(fs: FileSystem, filename: string, path: string, s: seq<string>)
    requires path in s
    ensures Comes(fs, filename, Machine([path], s), Machine([], s))
  {
    assert [path][1..] == [];
    OneStep(fs, filename, Machine([path], s));
  }

  lemma ClosedIsPassed(fs: FileSystem, filename: string, path: string, s: seq<string>)
    requires path !in s && Open(fs, path).None?
    ensures Comes(fs, filename, Machine([path], s), Machine([], s + [path]))
  {
    assert Next(fs, Machine([path], s)) == Machine([], s + [path]);
    OneStep(fs, filename, Machine([path], s));
  }

  lemma HitHere(fs: FileSystem, filename: string, path: string, s: seq<string>)
    requires path !in s && Open(fs, path).Some? && HasFile(fs, fs.resolve(path).value, filename)
    ensures FirstHit(fs, filename, Machine([path], s), path + "/" + filename)
  {
    hide HasFile;
    assert Runs(fs, filename, Machine([path], s), Machine([path], s), 0);
  }

  lemma DirectoryOpens(fs: FileSystem, filename: string, path: string, s: seq<string>)
    requires path !in s && Open(fs, path).Some? && !HasFile(fs, fs.resolve(path).value, filename)
    ensures var entries := Open(fs, path).value;
            Progress(fs, filename, path, s, s + [path],
                     DirPaths(path, entries)[0..] + Targets(fs, LinkPaths(path, entries)))
  {
    hide HasFile, DirPaths, LinkPaths, Targets, Finished;
    var entries := Open(fs, path).value;
    var ways := DirPaths(path, entries) + Targets(fs, LinkPaths(path, entries));
    assert [path][1..] == [];
    OneStep(fs, filename, Machine([path], s));
    assert ways + [] == ways && DirPaths(path, entries)[0..] == DirPaths(path, entries);
  }

  /** The search of `path`, with `before` known at its start, has come to `todo`. */
  ghost predicate Progress(fs: FileSystem, filename: string, path: string, before: seq<string>,
                           searched: seq<string>, todo: seq<string>) {
    && before + [path] <= searched && AllFinished(fs, filename, |before| + 1, searched)
    && Comes(fs, filename, Machine([path], before), Machine(todo, searched))
  }

  /** After the search of the first path on the stack, the others are next. */
  lemma SearchNext(fs: FileSystem, filename: string, path: string, before: seq<string>, next: string,
                   s: seq<string>, t: seq<string>, r: string, rest: seq<string>)
    requires Progress(fs, filename, path, before, s, [next] + rest) && s <= t
    requires if r == ""
             then AllFinished(fs, filename, |s|, t) && Comes(fs, filename, Machine([next], s), Machine([], t))
             else FirstHit(fs, filename, Machine([next], s), r)
    ensures before + [path] <= t && forall p <- s :: p in t
    ensures if r == "" then Progress(fs, filename, path, before, t, rest)
            else FirstHit(fs, filename, Machine([path], before), r)
  {
    hide Comes, FirstHit, AllFinished;
    SearchAbove(fs, filename, next, s, t, r, rest);
    ComesThen(fs, filename, Machine([path], before), Machine([next] + rest, s));
    if r == "" { FinishedGrows(fs, filename, |before| + 1, s, t); }
  }

  lemma ProgressEnds(fs: FileSystem, filename: string, path: string, before: seq<string>, searched: seq<string>)
    requires Progress(fs, filename, path, before, searched, [])
    ensures AllFinished(fs, filename, |before| + 1, searched)
    ensures Comes(fs, filename, Machine([path], before), Machine([], searched))
  {
  }

  lemma TargetsFrom(fs: FileSystem, links: seq<string>, i: nat)
    requires i <= |links|
    ensures Targets(fs, links[i..]) ==
            if i == |links| then []
            else if fs.realpath(links[i]).Some? then [fs.realpath(links[i]).value] + Targets(fs, links[i + 1..])
            else Targets(fs, links[i + 1..])
  {
    if i < |links| { assert links[i..][1..] == links[i + 1..]; }
  }

  class Finder {
    var searched: seq<string>

    constructor ()
      ensures searched == []
    {
      searched := [];
    }

    /** Reads one directory: a match if there is one, else where to look next. */
    method ReadDirectory(fs: FileSystem, filename: string, path: string)
      returns (found: string, dirs: seq<string>, symlinks: seq<string>)
      requires Open(fs, path).Some?
      ensures found != "" ==> found == Child(path, filename) && HasFile(fs, fs.resolve(path).value, filename)
      ensures found == "" ==>
                && dirs == DirPaths(path, Open(fs, path).value) && symlinks == LinkPaths(path, Open(fs, path).value)
                && !HasFile(fs, fs.resolve(path).value, filename)
    {
      var entries := Open(fs, path).value;
      found, dirs, symlinks := "", [], [];
      var j := 0;
      while j < |entries|
        invariant 0 <= j <= |entries|
        invariant dirs == DirPaths(path, entries[..j]) && symlinks == LinkPaths(path, entries[..j])
        invariant forall i | 0 <= i < j :: !IsMatch(entries[i], filename)
      {
        var e := entries[j];
        assert entries[..j + 1][..j] == entries[..j];
        if !IsDot(e.name) {
          var newPath := path + "/" + e.name;
          if e.kind.Directory? {
            dirs := dirs + [newPath];
          } else if e.kind.Symlink? {
            symlinks := symlinks + [newPath];
          } else if e.kind.Regular? && filename == e.name {
            assert IsMatch(fs.nodes[fs.resolve(path).value][j], filename);
            return newPath, dirs, symlinks;
          }
        }
        j := j + 1;
      }
      assert entries[..j] == entries;
    }

    /** Find_Internal. It takes the paths in the order of the stack machine and returns its first hit. */
    method FindInternal(fs: FileSystem, filename: string, path: string) returns (r: string)
      requires WellFormed(fs)
      modifies this`searched
      ensures old(searched) <= searched && path in searched
      ensures r == "" ==> AllFinished(fs, filename, |old(searched)|, searched)
      ensures r != "" ==> Found(fs, filename, path, r)
      ensures r == "" ==> Comes(fs, filename, Machine([path], old(searched)), Machine([], searched))
      ensures r != "" ==> FirstHit(fs, filename, Machine([path], old(searched)), r)
      decreases |Unseen(fs, searched, path)|, Depth(fs, searched, path)
    {
      hide Found, AllFinished, Finished, WellFormed, Reachable, Unseen, Depth, HasFile, DirectoryOk, Leading, Covered;
      hide Comes, FirstHit, Targets, DirPaths, LinkPaths, IsHit, Progress;
      ghost var before := searched;
      if path in searched {
        NothingNew(fs, filename, searched);
        KnownIsPassed(fs, filename, path, searched);
        return "";
      }
      searched := searched + [path];
      assert path == searched[|before|];
      if Open(fs, path).None? {
        NothingNew(fs, filename, searched);
        ClosedIsFinished(fs, filename, path, searched);
        ClosePath(fs, filename, |before|, path, searched);
        ClosedIsPassed(fs, filename, path, before);
        return "";
      }
      var found, dirs, symlinks := ReadDirectory(fs, filename, path);
      if found != "" {
        FoundHere(fs, filename, path);
        HitHere(fs, filename, path, before);
        return found;
      }
      PathsLead(fs, filename, path);
      DirectoryOpens(fs, filename, path, before);
      var index := 0;
      while index < |dirs|
        invariant 0 <= index <= |dirs| && before + [path] <= searched
        invariant Progress(fs, filename, path, before, searched, dirs[index..] + Targets(fs, symlinks))
        invariant forall k | 0 <= k < index :: dirs[k] in searched
      {
        ghost var mid, rest := searched, dirs[index + 1..] + Targets(fs, symlinks);
        ghost var i := LeadingFrom(fs, path, dirs, true, index);
        SubdirectoryDescends(fs, before, path, searched, dirs[index]);
        assert dirs[index..] + Targets(fs, symlinks) == [dirs[index]] + rest;
        r := FindInternal(fs, filename, dirs[index]);
        SearchNext(fs, filename, path, before, dirs[index], mid, searched, r, rest);
        if r != "" {
          FoundThrough(fs, filename, path, i, dirs[index], r);
          return;
        }
        index := index + 1;
      }
      index := 0;
      assert dirs[|dirs|..] + Targets(fs, symlinks) == Targets(fs, symlinks[0..]);
      while index < |symlinks|
        invariant 0 <= index <= |symlinks| && before + [path] <= searched
        invariant Progress(fs, filename, path, before, searched, Targets(fs, symlinks[index..]))
        invariant forall k | 0 <= k < |dirs| :: dirs[k] in searched
        invariant forall k | 0 <= k < index :: TargetIn(fs, symlinks[k], searched)
      {
        ghost var mid := searched;
        var target := fs.realpath(symlinks[index]);
        TargetsFrom(fs, symlinks, index);
        if target.Some? {
          ghost var i := LeadingFrom(fs, path, symlinks, false, index);
          SymlinkDescends(fs, before, path, searched, target.value);
          r := FindInternal(fs, filename, target.value);
          SearchNext(fs, filename, path, before, target.value, mid, searched, r, Targets(fs, symlinks[index + 1..]));
          if r != "" {
            FoundThrough(fs, filename, path, i, target.value, r);
            return;
          }
        }
        index := index + 1;
      }
      TargetsFrom(fs, symlinks, index);
      ProgressEnds(fs, filename, path, before, searched);
      CoveredIsFinished(fs, filename, path, dirs, symlinks, searched);
      ClosePath(fs, filename, |before|, path, searched);
      return "";
    }

    /** Find_File::Find, a search by a fresh object. */
    static method Find(fs: FileSystem, filename: string, start: string) returns (r: string)
      requires WellFormed(fs)
      ensures r != "" <==> exists m: nat {:trigger HasFile(fs, m, filename)} ::
                             && fs.resolve(start).Some? && Reachable(fs, fs.resolve(start).value, m)
                             && HasFile(fs, m, filename)
      ensures r != "" ==> Found(fs, filename, start, r) && FirstHit(fs, filename, Machine([start], []), r)
    {
      var finder := new Finder();
      r := finder.FindInternal(fs, filename, start);
      if r == "" {
        FinishedSearchIsComplete(fs, filename, start, finder.searched);
      } else {
        assert Found(fs, filename, start, r);
      }
    }
  }

  // ---- Completeness ----

  /** If every searched path is finished, every directory on a trail from the start was searched. */
  lemma {:induction false} TrailIsSearched(
    fs: FileSystem, filename: string, start: string, searched: seq<string>, trail: seq<nat>) returns (path: string)
    requires WellFormed(fs) && start in searched && AllFinished(fs, filename, 0, searched)
    requires Trail(fs, trail) && fs.resolve(start) == Some(trail[0])
    ensures path in searched && fs.resolve(path) == Some(trail[|trail| - 1])
    decreases |trail|
  {
    if |trail| == 1 {
      path := start;
    } else {
      var init := trail[..|trail| - 1];
      assert Trail(fs, init) by {
        forall k: nat | k + 1 < |init| ensures Edge(fs, init[k], init[k + 1]) {
          assert init[k] == trail[k] && init[k + 1] == trail[k + 1];
        }
      }
      var p := TrailIsSearched(fs, filename, start, searched, init);
      var n, m := trail[|trail| - 2], trail[|trail| - 1];
      assert Edge(fs, trail[|trail| - 2], trail[|trail| - 2 + 1]);
      path := EdgeIsSearched(fs, filename, searched, p, n, m);
    }
  }

  lemma EdgeIsSearched(fs: FileSystem, filename: string, searched: seq<string>, p: string, n: nat, m: nat)
    returns (path: string)
    requires WellFormed(fs) && AllFinished(fs, filename, 0, searched)
    requires p in searched && fs.resolve(p) == Some(n) && Edge(fs, n, m)
    ensures path in searched && fs.resolve(path) == Some(m)
  {
    var q: string, i: nat :|
      fs.resolve(q) == Some(n) && n in fs.nodes && i < |fs.nodes[n]| && Leads(fs, q, fs.nodes[n][i], m);
    var e := fs.nodes[n][i];
    assert Open(fs, p) == Some(fs.nodes[n]) && e == Open(fs, p).value[i];
    assert Finished(fs, filename, p, searched);
    assert Settled(fs, filename, p, e, searched);
    assert DirectoryOk(fs, p, n, e);
    if e.kind.Directory? {
      path := Child(p, e.name);
    } else {
      assert fs.realpath(Child(p, e.name)) == fs.realpath(Child(q, e.name));
      path := fs.realpath(Child(p, e.name)).value;
    }
  }

  /** A search that ends with nothing left to settle has missed no file. */
  lemma FinishedSearchIsComplete(fs: FileSystem, filename: string, start: string, searched: seq<string>)
    requires WellFormed(fs) && start in searched && AllFinished(fs, filename, 0, searched)
    ensures forall m: nat {:trigger HasFile(fs, m, filename)} ::
              fs.resolve(start).Some? && Reachable(fs, fs.resolve(start).value, m) ==> !HasFile(fs, m, filename)
  {
    forall m: nat | fs.resolve(start).Some? && Reachable(fs, fs.resolve(start).value, m)
      ensures !HasFile(fs, m, filename)
    {
      var trail: seq<nat> :| Trail(fs, trail) && trail[0] == fs.resolve(start).value && trail[|trail| - 1] == m;
      var path := TrailIsSearched(fs, filename, start, searched, trail);
      assert Finished(fs, filename, path, searched);
      assert m in fs.nodes ==> Open(fs, path) == Some(fs.nodes[m]);
      assert m in fs.nodes ==>
          forall i | 0 <= i < |fs.nodes[m]| :: Settled(fs, filename, path, fs.nodes[m][i], searched);
    }
  }

  // ---- A file system with a cycle ----

  /** A root with a directory "d" and a file "f"; in "d" a symlink "l" back to the root. */
  function Cyclic(): FileSystem {
    FileSystem(
      map[0 := [Entry("d", Directory(1)), Entry("f", Regular)], 1 := [Entry("l", Symlink)]],
      path => if path == "" then Some(0) else if path == "/d" then Some(1) else None,
      path => if path == "/d/l" then Some("") else None,
      {""}, n => if n == 0 then 1 else 0)
  }

  /** It meets what the search assumes, and each of its directories is reachable from the other. */
  lemma CyclesAreWellFormed()
    ensures WellFormed(Cyclic()) && Edge(Cyclic(), 0, 1) && Edge(Cyclic(), 1, 0) && HasFile(Cyclic(), 0, "f")
  {
    var fs := Cyclic();
    assert "" + "/" + "d" == "/d" && "/d" + "/" + "l" == "/d/l";
    assert Leads(fs, "", fs.nodes[0][0], 1) && fs.resolve("") == Some(0);
    assert Leads(fs, "/d", fs.nodes[1][0], 0) && fs.resolve("/d") == Some(1);
    assert IsMatch(fs.nodes[0][1], "f");
  }
}
