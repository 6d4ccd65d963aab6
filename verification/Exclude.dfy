/** TWExclude: the directories that a backup, a size count or a wipe passes over. */
module Exclude {
  import opened Common
  import opened Paths

  /** The last component is a name below a slash, so the relative list applies to it. */
  predicate NamedBelowSlash(path: string) {
    Components(path) != [] && (Absolute(path) || 2 <= |Components(path)|)
  }

  predicate Skips(relative: seq<string>, absolute: seq<string>, path: string) {
    || (NamedBelowSlash(path) && Components(path)[|Components(path)| - 1] in relative)
    || Normal(path) in absolute
  }

  // ---- The last slash ----

  /** The greatest index of `d`, or None. */
  function FindLast(s: string, d: char): (k: Option<nat>)
    ensures k.None? ==> d !in s
    ensures k.Some? ==> k.value < |s| && s[k.value] == d && d !in s[k.value + 1..]
  {
    if s == "" then None
    else if s[|s| - 1] == d then Some(|s| - 1)
    else
      var k := FindLast(s[..|s| - 1], d);
      assert k.Some? ==> s[k.value + 1..] == s[..|s| - 1][k.value + 1..] + [s[|s| - 1]];
      k
  }

  lemma LastIsUnique(a: string, c: string)
    requires '/' !in c
    ensures FindLast(a + "/" + c, '/') == Some(|a|)
  {
    var s := a + "/" + c;
    var k := FindLast(s, '/');
    assert s[|a|] == '/' && s[|a| + 1..] == c;
    assert k.Some?;
  }

  lemma {:induction false} RootedEnds(cs: seq<string>)
    requires cs != []
    ensures Rooted(cs) == Rooted(cs[..|cs| - 1]) + "/" + cs[|cs| - 1]
  {
    if |cs| == 1 {
      assert Rooted(cs[..0]) == "" && cs[1..] == [];
      assert "/" + cs[0] + Rooted([]) == "/" + cs[0];
    } else {
      RootedEnds(cs[1..]);
      assert cs[1..][..|cs| - 2] == cs[..|cs| - 1][1..];
    }
  }

  /** find_last_of on a normal form isolates the last component, exactly when it lies below a slash. */
  lemma LastComponent(path: string)
    ensures var n, cs := Normal(path), Components(path);
            var k := FindLast(n, '/');
            && (NamedBelowSlash(path) <==> k.Some?)
            && (k.Some? ==> k.value + 1 < |n| && n[k.value + 1..] == cs[|cs| - 1])
  {
    hide Components, FindLast;
    var n, cs := Normal(path), Components(path);
    ComponentsAreNames(path);
    if cs != [] {
      var c := cs[|cs| - 1];
      assert IsName(c);
      if NamedBelowSlash(path) {
        var front: string;
        if Absolute(path) {
          RootedEnds(cs);
          front := Rooted(cs[..|cs| - 1]);
        } else {
          RootedEnds(cs[1..]);
          front := cs[0] + Rooted(cs[1..][..|cs| - 2]);
        }
        assert n == front + "/" + c;
        LastIsUnique(front, c);
        assert n[|front| + 1..] == c;
      } else {
        assert n == c + Rooted([]) == c;
      }
    } else {
      assert n == "";
    }
  }

  class TWExclude {
    var absolutedir: seq<string>
    var relativedir: seq<string>

    constructor ()
      ensures absolutedir == [] && relativedir == [".", "..", "lost+found"]
    {
      absolutedir, relativedir := [], [".", "..", "lost+found"];
    }

    method AddRelativeDir(dir: string)
      modifies this`relativedir
      ensures relativedir == old(relativedir) + [dir]
    {
      relativedir := relativedir + [dir];
    }

    /** Erases every occurrence and keeps the others in order. */
    method ClearRelativeDir(dir: string)
      modifies this`relativedir
      ensures relativedir == Without(old(relativedir), dir)
      ensures forall x :: x in relativedir <==> x in old(relativedir) && x != dir
    {
      hide Without;
      var i := 0;
      while i < |relativedir|
        invariant i <= |relativedir|
        invariant relativedir[..i] + Without(relativedir[i..], dir) == Without(old(relativedir), dir)
        decreases |relativedir| - i
      {
        WithoutStep(relativedir, i, dir);
        if relativedir[i] == dir {
          ghost var before := relativedir;
          relativedir := relativedir[..i] + relativedir[i + 1..];
          assert relativedir[..i] == before[..i] && relativedir[i..] == before[i + 1..];
        } else {
          assert relativedir[..i + 1] == relativedir[..i] + [relativedir[i]];
          i := i + 1;
        }
      }
      assert relativedir[i..] == [] && relativedir[..i] == relativedir;
      WithoutNothing(dir);
      WithoutMembers(old(relativedir), dir);
    }

    method AddAbsoluteDir(dir: string)
      modifies this`absolutedir
      ensures absolutedir == old(absolutedir) + [Normal(dir)]
    {
      var normalized := RemoveTrailingSlashes(dir, false);
      absolutedir := absolutedir + [normalized];
    }

    method CheckSkipDirs(path: string) returns (skip: bool)
      ensures skip == Skips(relativedir, absolutedir, path)
    {
      hide Components, Normal, FindLast;
      var normalized := RemoveTrailingSlashes(path, false);
      LastComponent(path);
      var slashIdx := FindLast(normalized, '/');
      if slashIdx.Some? && slashIdx.value + 1 < |normalized| {
        if normalized[slashIdx.value + 1..] in relativedir {
          return true;
        }
      }
      return normalized in absolutedir;
    }
  }

  function Without(list: seq<string>, dir: string): seq<string> {
    if list == [] then [] else (if list[0] == dir then [] else [list[0]]) + Without(list[1..], dir)
  }

  lemma {:induction false} WithoutMembers(list: seq<string>, dir: string)
    ensures forall x :: x in Without(list, dir) <==> x in list && x != dir
  {
    if list != [] {
      WithoutMembers(list[1..], dir);
      assert forall x :: x in list <==> x == list[0] || x in list[1..];
    }
  }

  lemma WithoutNothing(dir: string)
    ensures Without([], dir) == []
  {
  }

  lemma WithoutStep(list: seq<string>, i: nat, dir: string)
    requires i < |list|
    ensures Without(list[i..], dir) == (if list[i] == dir then [] else [list[i]]) + Without(list[i + 1..], dir)
  {
    assert list[i..][1..] == list[i + 1..];
  }

  // ---- What is skipped ----

  function Normals(dirs: seq<string>): seq<string> { seq(|dirs|, i requires 0 <= i < |dirs| => Normal(dirs[i])) }

  /**
   Exactly which paths are skipped: those whose last name, below some slash, is on the
   relative list, and those that name a directory of the absolute list in any slash variant.
   */
  lemma SkipsIff(relative: seq<string>, added: seq<string>, path: string)
    ensures Skips(relative, Normals(added), path) <==>
              || (NamedBelowSlash(path) && Components(path)[|Components(path)| - 1] in relative)
              || exists d :: d in added && SamePath(d, path)
  {
    hide Components, Normal;
    if Normal(path) in Normals(added) {
      var i :| 0 <= i < |added| && Normals(added)[i] == Normal(path);
      NormalFormsIff(added[i], path);
      assert added[i] in added;
    }
    forall d | d in added && SamePath(d, path) ensures Normal(path) in Normals(added) {
      NormalFormsIff(d, path);
      var i :| 0 <= i < |added| && added[i] == d;
      assert Normals(added)[i] == Normal(path);
    }
  }

  /** All slash variants of a path are treated alike. */
  lemma VariantsAgree(relative: seq<string>, absolute: seq<string>, p: string, q: string)
    requires SamePath(p, q)
    ensures Skips(relative, absolute, p) <==> Skips(relative, absolute, q)
  {
    hide Components, Normal;
    NormalFormsIff(p, q);
  }

  // ---- Paths of entries below a directory ----

  lemma {:induction false} ComponentsBelow(a: string, b: string)
    ensures Components(a + "/" + b) == Components(a) + Components(b)
    decreases |a|
  {
    hide Components;
    var k := FindFrom(a, '/', 0);
    if a == "" {
      SlashFirst(b);
      NoComponents();
      assert a + "/" + b == "/" + b;
    } else if k == |a| {
      assert IsName(a);
      FirstComponent(a, b);
      OneComponent(a);
    } else {
      var head, tail := a[..k], a[k + 1..];
      assert a == head + "/" + tail && a + "/" + b == head + "/" + (tail + "/" + b);
      ComponentsBelow(tail, b);
      if k == 0 {
        assert head == "" && "/" + tail == a && "/" + (tail + "/" + b) == a + "/" + b;
        SlashFirst(tail);
        SlashFirst(tail + "/" + b);
      } else {
        assert forall j | 0 <= j < k :: head[j] == a[j];
        FirstComponent(head, tail);
        FirstComponent(head, tail + "/" + b);
      }
    }
  }

  /** A doubled slash anywhere, or a slash at the end, does not change the answer. */
  lemma SlashesDoNotMatter(relative: seq<string>, absolute: seq<string>, a: string, b: string)
    ensures Skips(relative, absolute, a + "//" + b) <==> Skips(relative, absolute, a + "/" + b)
    ensures Skips(relative, absolute, a + "/") <==> Skips(relative, absolute, a)
  {
    hide Components, Normal, Skips;
    assert a + "//" + b == a + "/" + ("/" + b) && a + "/" + "" == a + "/";
    ComponentsBelow(a, b);
    ComponentsBelow(a, "/" + b);
    ComponentsBelow(a, "");
    SlashFirst(b);
    NoComponents();
    VariantsAgree(relative, absolute, a + "//" + b, a + "/" + b);
    VariantsAgree(relative, absolute, a + "/", a);
  }

  lemma OnlySlashes(dir: string)
    requires dir != "" && Components(dir) == []
    ensures dir[0] == '/'
  {
    hide Components;
    if dir[0] != '/' {
      var k := FindFrom(dir, '/', 0);
      var head := dir[..k];
      assert forall j | 0 <= j < k :: head[j] == dir[j];
      assert k < |dir| ==> dir == head + "/" + dir[k + 1..];
      assert k == |dir| ==> dir == head;
      if k == |dir| {
        OneComponent(head);
      } else {
        FirstComponent(head, dir[k + 1..]);
      }
    }
  }

  /** For an entry that a directory walk meets, the relative list is about its own name. */
  lemma EntrySkips(relative: seq<string>, absolute: seq<string>, dir: string, name: string)
    requires IsName(name)
    ensures Skips(relative, absolute, dir + "/" + name) <==> name in relative || Normal(dir + "/" + name) in absolute
  {
    hide Normal, Components;
    ComponentsBelow(dir, name);
    OneComponent(name);
    var path := dir + "/" + name;
    if dir == "" {
      assert path[0] == '/';
    } else if Components(dir) == [] {
      OnlySlashes(dir);
      assert path[0] == dir[0];
    }
  }
}
