/** Path normalisation: TWFunc::Remove_Trailing_Slashes. */
module Paths {
  import opened Common

  function NonEmpty(tokens: seq<string>): (kept: seq<string>)
    ensures forall i | 0 <= i < |kept| :: kept[i] != "" && kept[i] in tokens
  {
    if tokens == [] then [] else (if tokens[0] != "" then [tokens[0]] else []) + NonEmpty(tokens[1..])
  }

  /** The names between the slashes of a path. */
  function Components(path: string): seq<string> { NonEmpty(Split(path, '/')) }

  predicate Absolute(path: string) { path != "" && path[0] == '/' }

  /** A name a directory entry can have. */
  predicate IsName(c: string) { c != "" && '/' !in c }

  predicate Names(cs: seq<string>) { forall i | 0 <= i < |cs| :: IsName(cs[i]) }

  /** Each component behind one slash. */
  function Rooted(cs: seq<string>): string {
    if cs == [] then "" else "/" + cs[0] + Rooted(cs[1..])
  }

  /** The normal form: the components, single slashes between them, and a leading slash if there was one. */
  function Normal(path: string): string {
    var cs := Components(path);
    if Absolute(path) || cs == [] then Rooted(cs) else cs[0] + Rooted(cs[1..])
  }

  // ---- Components ----

  lemma SlashFirst(rest: string)
    ensures Components("/" + rest) == Components(rest)
  {
    SplitHead("", rest, '/');
    assert "" + ['/'] + rest == "/" + rest;
    assert ([""] + Split(rest, '/'))[1..] == Split(rest, '/');
  }

  lemma NoComponents()
    ensures Components("") == []
  {
    SplitWhole("", '/');
  }

  lemma OneComponent(c: string)
    requires IsName(c)
    ensures Components(c) == [c]
  {
    SplitWhole(c, '/');
    assert [c][1..] == [] && NonEmpty([]) == [] && [c] + [] == [c];
  }

  lemma FirstComponent(c: string, rest: string)
    requires IsName(c)
    ensures Components(c + "/" + rest) == [c] + Components(rest)
  {
    SplitHead(c, rest, '/');
    assert ([c] + Split(rest, '/'))[1..] == Split(rest, '/');
  }

  lemma {:induction false} SlashesSkipped(path: string, i: nat, m: nat)
    requires i <= m <= |path| && forall j | i <= j < m :: path[j] == '/'
    ensures Components(path[i..]) == Components(path[m..])
    decreases m - i
  {
    if i < m {
      assert path[i..] == "/" + path[i + 1..];
      SlashFirst(path[i + 1..]);
      SlashesSkipped(path, i + 1, m);
    }
  }

  lemma ComponentsAreNames(path: string)
    ensures Names(Components(path))
  {
    SplitHasNone(path, '/');
  }

  lemma {:induction false} RootedComponents(cs: seq<string>)
    requires Names(cs)
    ensures Components(Rooted(cs)) == cs
    ensures cs != [] ==> Components(cs[0] + Rooted(cs[1..])) == cs
  {
    hide Components;
    if cs == [] {
      NoComponents();
    } else {
      var c, rest := cs[0], cs[1..];
      assert IsName(c);
      RootedComponents(rest);
      if rest == [] {
        OneComponent(c);
        assert c + Rooted(rest) == c && cs == [c];
      } else {
        FirstComponent(c, rest[0] + Rooted(rest[1..]));
        assert c + Rooted(rest) == c + "/" + (rest[0] + Rooted(rest[1..]));
      }
      SlashFirst(c + Rooted(rest));
      assert Rooted(cs) == "/" + (c + Rooted(rest));
    }
  }

  // ---- The normal form ----

  lemma NormalKeepsComponents(path: string)
    ensures Components(Normal(path)) == Components(path)
    ensures Components(path) != [] ==> (Absolute(Normal(path)) <==> Absolute(path))
  {
    hide Components;
    ComponentsAreNames(path);
    RootedComponents(Components(path));
    if Components(path) != [] { assert IsName(Components(path)[0]); }
  }

  lemma NormalIsIdempotent(path: string)
    ensures Normal(Normal(path)) == Normal(path)
  {
    hide Components;
    NormalKeepsComponents(path);
  }

  /** Two paths that differ only in repeated and trailing slashes. */
  predicate SamePath(p: string, q: string) {
    Components(p) == Components(q) && (Components(p) == [] || (Absolute(p) <==> Absolute(q)))
  }

  /** The normal form identifies exactly the slash variants of a path. */
  lemma NormalFormsIff(p: string, q: string)
    ensures Normal(p) == Normal(q) <==> SamePath(p, q)
  {
    hide Components;
    NormalKeepsComponents(p);
    NormalKeepsComponents(q);
  }

  predicate SingleSlashes(s: string) {
    && (forall i | 0 <= i < |s| - 1 :: s[i] == '/' ==> s[i + 1] != '/')
    && (s != "" ==> s[|s| - 1] != '/')
  }

  lemma NameThenRooted(c: string, rest: string)
    requires IsName(c) && SingleSlashes(rest) && (rest == "" || rest[0] == '/')
    ensures SingleSlashes(c + rest) && SingleSlashes("/" + c + rest)
  {
    assert forall i | 0 <= i < |c| :: c[i] != '/';
  }

  lemma {:induction false} RootedSlashes(cs: seq<string>)
    requires Names(cs)
    ensures SingleSlashes(Rooted(cs)) && (Rooted(cs) == "" || Rooted(cs)[0] == '/')
  {
    if cs != [] {
      assert IsName(cs[0]);
      RootedSlashes(cs[1..]);
      NameThenRooted(cs[0], Rooted(cs[1..]));
    }
  }

  lemma NormalHasSingleSlashes(path: string)
    ensures SingleSlashes(Normal(path))
  {
    hide Components, SingleSlashes;
    var cs := Components(path);
    ComponentsAreNames(path);
    RootedSlashes(cs);
    if cs != [] {
      assert IsName(cs[0]);
      RootedSlashes(cs[1..]);
      NameThenRooted(cs[0], Rooted(cs[1..]));
    }
  }

  // ---- The loop ----

  /** The least index at or after `from` that holds anything but `d`, or |s|. */
  function FindNot(s: string, d: char, from: nat): (k: nat)
    requires from <= |s|
    ensures from <= k <= |s|
    ensures forall i | from <= i < k :: s[i] == d
    ensures k < |s| ==> s[k] != d
    decreases |s| - from
  {
    if from == |s| || s[from] != d then from else FindNot(s, d, from + 1)
  }

  /** What is still to be written when the scan stands at the start of a component. */
  function Remaining(path: string, last: nat): string
    requires last <= |path|
  {
    if last == 0 then Normal(path) else Rooted(Components(path[last..]))
  }

  /** A component that ends at `idx`, followed by slashes up to `next`. */
  lemma ComponentStep(path: string, last: nat, idx: nat, next: nat)
    requires last < idx <= next <= |path| && (idx == |path| || path[idx] == '/')
    requires forall j | last <= j < idx :: path[j] != '/'
    requires forall j | idx <= j < next :: path[j] == '/'
    requires idx < |path| ==> idx < next
    ensures Components(path[last..]) == [path[last..idx]] + Components(path[next..])
  {
    hide Components;
    var c := path[last..idx];
    assert forall j | 0 <= j < |c| :: c[j] == path[last + j];
    if idx == |path| {
      assert path[last..] == c && path[next..] == "";
      OneComponent(c);
      NoComponents();
    } else {
      assert path[last..] == c + "/" + path[idx + 1..];
      FirstComponent(c, path[idx + 1..]);
      SlashesSkipped(path, idx + 1, next);
    }
  }

  /** One round of the loop writes the component at `last` and moves behind its slashes. */
  lemma RemainingStep(path: string, last: nat, idx: nat, next: nat)
    requires last <= idx <= next <= |path| && (last == 0 || (last < |path| && path[last] != '/'))
    requires idx == FindFrom(path, '/', last) && next == FindNot(path, '/', idx)
    ensures Remaining(path, last) ==
            (if last != 0 then "/" else "") + path[last..idx] + (if next == |path| then "" else Remaining(path, next))
  {
    hide Components, FindFrom, FindNot;
    assert path[|path|..] == "" && path[0..] == path;
    NoComponents();
    if last == idx {
      if idx < |path| {
        SlashesSkipped(path, 0, next);
      }
    } else {
      ComponentStep(path, last, idx, next);
      var c, rest := path[last..idx], Components(path[next..]);
      assert ([c] + rest)[1..] == rest;
      if last == 0 {
        assert path[0] != '/' && Normal(path) == c + Rooted(rest);
        assert "" + c + Rooted(rest) == c + Rooted(rest);
      } else {
        assert Rooted([c] + rest) == "/" + c + Rooted(rest);
      }
      assert next == |path| ==> Rooted(rest) == "";
    }
  }

  /** Copies component by component; `last` is where the next one starts, or |path| when there is none. */
  method RemoveTrailingSlashes(path: string, leaveLast: bool) returns (res: string)
    ensures res == if leaveLast then Normal(path) + "/" else Normal(path)
  {
    hide Normal, Remaining, FindFrom, FindNot, Components;
    res := "";
    var last, done := 0, false;
    StartsAtNormal(path);
    while !done
      invariant last <= |path|
      invariant done ==> res == Normal(path)
      invariant !done ==> last == 0 || (last < |path| && path[last] != '/')
      invariant !done ==> res + Remaining(path, last) == Normal(path)
      decreases !done, |path| - last
    {
      var idx := FindFrom(path, '/', last);
      var next := FindNot(path, '/', idx);
      RemainingStep(path, last, idx, next);
      if last != 0 {
        res := res + "/";
      }
      res := res + path[last..idx];
      done := next == |path|;
      last := next;
    }
    if leaveLast {
      res := res + "/";
    }
  }

  lemma StartsAtNormal(path: string)
    ensures Remaining(path, 0) == Normal(path)
  {
  }
}
