/** Pathnames (kernel/src/fs/path.rs): splitting into components and lexical normalization.

    A path is a sequence of bytes, written as a `string`; the separator and the dots are
    ASCII, so no multi-byte character is ever cut.
  */
module Paths {
  import opened Basics

  const DOT: string := "."
  const DOTDOT: string := ".."

  /** The pieces between separators, as `str::split('/')` yields them. */
  function Split(p: string): (r: seq<string>)
    ensures |r| >= 1
  {
    if p == "" then [""]
    else if p[0] == '/' then [""] + Split(p[1..])
    else var r := Split(p[1..]); [[p[0]] + r[0]] + r[1..]
  }

  function DropEmpty(s: seq<string>): seq<string> {
    if s == [] then [] else (if s[0] == "" then [] else [s[0]]) + DropEmpty(s[1..])
  }

  function DropDots(s: seq<string>): seq<string> {
    if s == [] then [] else (if s[0] == DOT then [] else [s[0]]) + DropDots(s[1..])
  }

  /** The non-empty pieces of a path. */
  function Components(p: string): seq<string> { DropEmpty(Split(p)) }

  predicate IsAbsolute(p: string) { p != "" && p[0] == '/' }

  /** A possible path component. */
  predicate IsName(c: string) { c != "" && '/' !in c }

  ghost predicate AllNames(cs: seq<string>) { forall i | 0 <= i < |cs| :: IsName(cs[i]) }

  // ----- path_normalize as a function

  /** One component of the loop of `path_normalize`. */
  function Push(abs: bool, st: seq<string>, c: string): seq<string> {
    if c != DOTDOT then st + [c]
    else if abs then (if st != [] then st[..|st| - 1] else st)
    else if st != [] && st[|st| - 1] == DOTDOT then st + [DOTDOT]
    else if st != [] then st[..|st| - 1]
    else st + [DOTDOT]
  }

  function PushAll(abs: bool, st: seq<string>, cs: seq<string>): seq<string>
    decreases |cs|
  {
    if cs == [] then st else PushAll(abs, Push(abs, st, cs[0]), cs[1..])
  }

  /** Components separated by single slashes. */
  function Join(cs: seq<string>): string {
    if cs == [] then "" else if |cs| == 1 then cs[0] else Join(cs[..|cs| - 1]) + "/" + cs[|cs| - 1]
  }

  function Render(abs: bool, cs: seq<string>): string {
    (if abs then "/" else "") + Join(cs)
  }

  function Stack(p: string): seq<string> {
    PushAll(IsAbsolute(p), [], DropDots(Components(p)))
  }

  function Normalize(p: string): string {
    if p == "" then "" else Render(IsAbsolute(p), Stack(p))
  }

  // ----- the reference: walking a path over a stack of directory names

  /** Where a component leads: `.` stays, `..` goes up and stops at the root. */
  function Enter(dir: seq<string>, c: string): seq<string> {
    if c == DOT then dir
    else if c == DOTDOT then (if dir == [] then [] else dir[..|dir| - 1])
    else dir + [c]
  }

  function Walk(dir: seq<string>, cs: seq<string>): seq<string>
    decreases |cs|
  {
    if cs == [] then dir else Walk(Enter(dir, cs[0]), cs[1..])
  }

  /** Lexical resolution of a path from the directory `cwd`. */
  function Resolve(cwd: seq<string>, p: string): seq<string> {
    Walk(if IsAbsolute(p) then [] else cwd, Components(p))
  }

  // ----- splitting and joining

  lemma {:induction false} SplitNoSlash(p: string)
    ensures forall i | 0 <= i < |Split(p)| :: '/' !in Split(p)[i]
  {
    if p != "" {
      SplitNoSlash(p[1..]);
    }
  }

  lemma {:induction false} DropEmptyNames(s: seq<string>)
    requires forall i | 0 <= i < |s| :: '/' !in s[i]
    ensures AllNames(DropEmpty(s))
  {
    if s != [] {
      DropEmptyNames(s[1..]);
    }
  }

  lemma ComponentsAreNames(p: string)
    ensures AllNames(Components(p))
  {
    SplitNoSlash(p);
    DropEmptyNames(Split(p));
  }

  lemma NoComponents()
    ensures Components("") == []
  {
    assert Split("") == [""] && [""][1..] == [];
  }

  /** A leading separator adds no component. */
  lemma ComponentsSlash(p: string)
    ensures Components("/" + p) == Components(p)
  {
    var q := "/" + p;
    assert q[1..] == p;
    assert Split(q) == [""] + Split(p);
    assert ([""] + Split(p))[1..] == Split(p);
  }

  lemma {:induction false} SplitName(w: string, rest: string)
    requires '/' !in w
    requires rest == "" || rest[0] == '/'
    ensures Split(w + rest)[0] == w
    ensures Split(w + rest)[1..] == if rest == "" then [] else Split(rest[1..])
  {
    if w == "" {
      assert w + rest == rest;
      if rest != "" {
        assert ([""] + Split(rest[1..]))[1..] == Split(rest[1..]);
      }
    } else {
      assert (w + rest)[1..] == w[1..] + rest;
      SplitName(w[1..], rest);
      var r := Split(w[1..] + rest);
      assert Split(w + rest) == [[w[0]] + r[0]] + r[1..];
      assert [w[0]] + w[1..] == w;
      assert ([[w[0]] + r[0]] + r[1..])[1..] == r[1..];
    }
  }

  /** A name followed by a separator or the end is the first component. */
  lemma ComponentsName(w: string, rest: string)
    requires IsName(w)
    requires rest == "" || rest[0] == '/'
    ensures Components(w + rest) == [w] + Components(rest)
  {
    SplitName(w, rest);
    var s := Split(w + rest);
    assert DropEmpty(s) == [s[0]] + DropEmpty(s[1..]);
    if rest == "" {
      assert s[1..] == [];
      assert Split("") == [""] && [""][1..] == [];
      assert DropEmpty([""]) == [];
    } else {
      assert Split(rest) == [""] + Split(rest[1..]);
      assert ([""] + Split(rest[1..]))[1..] == Split(rest[1..]);
      assert DropEmpty(Split(rest)) == DropEmpty(Split(rest[1..]));
    }
  }

  /** Joining with a separator concatenates the components. */
  lemma {:induction false} ComponentsAppend(p: string, w: string)
    requires IsName(w)
    ensures Components(p + "/" + w) == Components(p) + [w]
    decreases |p|
  {
    assert w + "" == w;
    ComponentsName(w, "");
    NoComponents();
    assert Components(w) == [w];
    if p == "" {
      assert p + "/" + w == "/" + w;
      ComponentsSlash(w);
    } else if p[0] == '/' {
      assert p == "/" + p[1..];
      assert p + "/" + w == "/" + (p[1..] + "/" + w);
      ComponentsSlash(p[1..]);
      ComponentsSlash(p[1..] + "/" + w);
      ComponentsAppend(p[1..], w);
    } else {
      var n := FirstSlash(p);
      var head, tail := p[..n], p[n..];
      assert p == head + tail && p + "/" + w == head + (tail + "/" + w);
      ComponentsName(head, tail);
      assert (tail + "/" + w)[0] == '/';
      ComponentsName(head, tail + "/" + w);
      ComponentsAppend(tail, w);
    }
  }

  /** Length of the run before the first separator. */
  function FirstSlash(p: string): (n: nat)
    ensures n <= |p| && '/' !in p[..n] && (n < |p| ==> p[n] == '/')
    ensures p != "" && p[0] != '/' ==> n > 0
  {
    if p == "" || p[0] == '/' then 0
    else
      var n := FirstSlash(p[1..]);
      assert p[..n + 1] == [p[0]] + p[1..][..n];
      n + 1
  }

  /** Splitting undoes joining. */
  lemma {:induction false} ComponentsOfJoin(cs: seq<string>)
    requires AllNames(cs)
    ensures Components(Join(cs)) == cs
    decreases |cs|
  {
    if cs == [] {
      NoComponents();
    } else if |cs| == 1 {
      assert cs[0] + "" == cs[0];
      ComponentsName(cs[0], "");
      NoComponents();
    } else {
      var init := cs[..|cs| - 1];
      ComponentsOfJoin(init);
      ComponentsAppend(Join(init), cs[|cs| - 1]);
      assert init + [cs[|cs| - 1]] == cs;
    }
  }

  lemma {:induction false} JoinStart(cs: seq<string>)
    requires AllNames(cs)
    ensures cs != [] ==> Join(cs) != "" && Join(cs)[0] != '/'
    decreases |cs|
  {
    if |cs| > 1 {
      JoinStart(cs[..|cs| - 1]);
    }
  }

  lemma ComponentsOfRender(abs: bool, cs: seq<string>)
    requires AllNames(cs)
    ensures Components(Render(abs, cs)) == cs
    ensures IsAbsolute(Render(abs, cs)) == abs
  {
    ComponentsOfJoin(cs);
    JoinStart(cs);
    if abs {
      ComponentsSlash(Join(cs));
    } else {
      assert Render(abs, cs) == Join(cs);
    }
  }

  // ----- what normalization keeps

  /** The stacks `path_normalize` builds: proper names, with `..` only in front of a relative path. */
  ghost predicate Tidy(abs: bool, st: seq<string>) {
    && AllNames(st) && DOT !in st
    && (abs ==> DOTDOT !in st)
    && (forall i, j | 0 <= i < j < |st| && st[j] == DOTDOT :: st[i] == DOTDOT)
  }

  /** A normalized path: its components are tidy and separated by single slashes. */
  ghost predicate Normal(p: string) {
    p == "" || (Tidy(IsAbsolute(p), Components(p)) && p == Render(IsAbsolute(p), Components(p)))
  }

  lemma PushTidy(abs: bool, st: seq<string>, c: string)
    requires Tidy(abs, st) && IsName(c) && c != DOT
    ensures Tidy(abs, Push(abs, st, c))
  {
    var st' := Push(abs, st, c);
    if |st'| > |st| {
      assert st'[..|st|] == st;
    } else {
      assert st' == st[..|st'|];
    }
  }

  lemma {:induction false} PushAllTidy(abs: bool, st: seq<string>, cs: seq<string>)
    requires Tidy(abs, st) && AllNames(cs) && DOT !in cs
    ensures Tidy(abs, PushAll(abs, st, cs))
    decreases |cs|
  {
    if cs != [] {
      PushTidy(abs, st, cs[0]);
      PushAllTidy(abs, Push(abs, st, cs[0]), cs[1..]);
    }
  }

  lemma {:induction false} WalkAppend(dir: seq<string>, cs: seq<string>, c: string)
    ensures Walk(dir, cs + [c]) == Enter(Walk(dir, cs), c)
    decreases |cs|
  {
    if cs == [] {
      assert Walk(dir, [c]) == Walk(Enter(dir, c), []);
    } else {
      assert (cs + [c])[1..] == cs[1..] + [c];
      WalkAppend(Enter(dir, cs[0]), cs[1..], c);
    }
  }

  /** Pushing a component and then walking is walking and then entering it. */
  lemma PushWalk(abs: bool, base: seq<string>, st: seq<string>, c: string)
    requires Tidy(abs, st) && c != DOT && (abs ==> base == [])
    ensures Walk(base, Push(abs, st, c)) == Enter(Walk(base, st), c)
  {
    WalkAppend(base, st, c);
    if st != [] {
      var init, last := st[..|st| - 1], st[|st| - 1];
      assert st == init + [last];
      WalkAppend(base, init, last);
      assert last in st;
    }
  }

  lemma {:induction false} PushAllWalk(abs: bool, base: seq<string>, st: seq<string>, cs: seq<string>)
    requires Tidy(abs, st) && AllNames(cs) && DOT !in cs && (abs ==> base == [])
    ensures Walk(base, PushAll(abs, st, cs)) == Walk(Walk(base, st), cs)
    decreases |cs|
  {
    if cs != [] {
      PushTidy(abs, st, cs[0]);
      PushWalk(abs, base, st, cs[0]);
      PushAllWalk(abs, base, Push(abs, st, cs[0]), cs[1..]);
    }
  }

  lemma {:induction false} DropDotsKeeps(dir: seq<string>, cs: seq<string>)
    requires AllNames(cs)
    ensures Walk(dir, DropDots(cs)) == Walk(dir, cs)
    ensures AllNames(DropDots(cs)) && DOT !in DropDots(cs)
    decreases |cs|
  {
    if cs != [] {
      DropDotsKeeps(Enter(dir, cs[0]), cs[1..]);
      if cs[0] == DOT {
        assert DropDots(cs) == DropDots(cs[1..]);
      } else {
        assert DropDots(cs)[1..] == DropDots(cs[1..]);
      }
    }
  }

  lemma StackIsTidy(p: string)
    ensures Tidy(IsAbsolute(p), Stack(p))
  {
    ComponentsAreNames(p);
    DropDotsKeeps([], Components(p));
    PushAllTidy(IsAbsolute(p), [], DropDots(Components(p)));
  }

  /** Normalization preserves meaning: from every directory, the normalized path leads
      where the original leads. */
  lemma NormalizePreservesMeaning(cwd: seq<string>, p: string)
    ensures Resolve(cwd, Normalize(p)) == Resolve(cwd, p)
  {
    if p != "" {
      var abs := IsAbsolute(p);
      var base := if abs then [] else cwd;
      var cs := DropDots(Components(p));
      ComponentsAreNames(p);
      DropDotsKeeps(base, Components(p));
      PushAllWalk(abs, base, [], cs);
      StackIsTidy(p);
      ComponentsOfRender(abs, Stack(p));
    }
  }

  /** The result is in normal form. */
  lemma NormalizeIsNormal(p: string)
    ensures Normal(Normalize(p))
  {
    if p != "" {
      StackIsTidy(p);
      ComponentsOfRender(IsAbsolute(p), Stack(p));
    }
  }

  lemma {:induction false} PushAllFixed(abs: bool, st: seq<string>, cs: seq<string>)
    requires Tidy(abs, st + cs)
    ensures PushAll(abs, st, cs) == st + cs
    decreases |cs|
  {
    if cs == [] {
      assert st + cs == st;
    } else {
      assert (st + cs)[|st|] == cs[0];
      assert st + cs == st + [cs[0]] + cs[1..];
      assert cs[0] == DOTDOT && st != [] ==> (st + cs)[|st| - 1] == DOTDOT;
      PushAllFixed(abs, st + [cs[0]], cs[1..]);
    }
  }

  lemma {:induction false} DropDotsFixed(cs: seq<string>)
    requires DOT !in cs
    ensures DropDots(cs) == cs
  {
    if cs != [] {
      DropDotsFixed(cs[1..]);
    }
  }

  /** The fixed points of normalization are exactly the paths in normal form; in particular
      normalizing twice is normalizing once. */
  lemma NormalIffFixed(p: string)
    ensures Normal(p) <==> Normalize(p) == p
    ensures Normalize(Normalize(p)) == Normalize(p)
  {
    NormalizeIsNormal(p);
    if Normal(p) {
      NormalIsFixed(p);
    }
    NormalIsFixed(Normalize(p));
  }

  lemma NormalIsFixed(p: string)
    requires Normal(p)
    ensures Normalize(p) == p
  {
    if p != "" {
      var cs := Components(p);
      DropDotsFixed(cs);
      assert [] + cs == cs;
      PushAllFixed(IsAbsolute(p), [], cs);
    }
  }

  /** On absolute paths normalization is the canonical name of the place the path leads to. */
  lemma AbsoluteIsCanonical(cwd: seq<string>, p: string)
    requires IsAbsolute(p)
    ensures Normalize(p) == Render(true, Resolve(cwd, p))
  {
    ComponentsAreNames(p);
    DropDotsKeeps([], Components(p));
    PushAllWalk(true, [], [], DropDots(Components(p)));
    StackIsTidy(p);
    WalkNames([], Stack(p));
    assert Resolve(cwd, p) == Walk([], Stack(p)) == Stack(p);
  }

  lemma {:induction false} WalkNames(dir: seq<string>, cs: seq<string>)
    requires DOT !in cs && DOTDOT !in cs
    ensures Walk(dir, cs) == dir + cs
    decreases |cs|
  {
    if cs != [] {
      WalkNames(dir + [cs[0]], cs[1..]);
      assert dir + [cs[0]] + cs[1..] == dir + cs;
    }
  }

  /** A path without `.` and `..` keeps its components. */
  lemma TidyStack(p: string)
    requires IsAbsolute(p) && Tidy(true, Components(p))
    ensures Stack(p) == Components(p)
  {
    DropDotsFixed(Components(p));
    assert [] + Components(p) == Components(p);
    PushAllFixed(true, [], Components(p));
  }

  lemma {:induction false} PushAllShorter(st: seq<string>, cs: seq<string>)
    ensures |PushAll(true, st, cs)| <= |st| + |cs|
    ensures DOTDOT in cs ==> |PushAll(true, st, cs)| < |st| + |cs|
    decreases |cs|
  {
    if cs != [] {
      PushAllShorter(Push(true, st, cs[0]), cs[1..]);
    }
  }

  lemma {:induction false} DropDotsShorter(cs: seq<string>)
    ensures |DropDots(cs)| <= |cs| && (DOT in cs ==> |DropDots(cs)| < |cs|)
    ensures DOTDOT in cs ==> DOTDOT in DropDots(cs)
  {
    if cs != [] {
      DropDotsShorter(cs[1..]);
    }
  }

  /** Any other absolute path loses some. */
  lemma ShorterStack(p: string)
    requires IsAbsolute(p) && !Tidy(true, Components(p))
    ensures |Stack(p)| < |Components(p)|
  {
    ComponentsAreNames(p);
    DropDotsShorter(Components(p));
    PushAllShorter([], DropDots(Components(p)));
  }

  function Ups(n: nat): (r: seq<string>)
    ensures |r| == n && forall i | 0 <= i < n :: r[i] == DOTDOT
  {
    if n == 0 then [] else [DOTDOT] + Ups(n - 1)
  }

  /** Names go on the stack. */
  lemma {:induction false} PushNames(abs: bool, st: seq<string>, names: seq<string>, rest: seq<string>)
    requires DOTDOT !in names
    ensures PushAll(abs, st, names + rest) == PushAll(abs, st + names, rest)
    decreases |names|
  {
    if names == [] {
      assert names + rest == rest && st + names == st;
    } else {
      assert (names + rest)[1..] == names[1..] + rest;
      assert st + [names[0]] + names[1..] == st + names;
      PushNames(abs, st + [names[0]], names[1..], rest);
    }
  }

  /** As many `..` take them off again. */
  lemma {:induction false} PopNames(abs: bool, st: seq<string>, names: seq<string>, rest: seq<string>)
    requires DOTDOT !in names
    ensures PushAll(abs, st + names, Ups(|names|) + rest) == PushAll(abs, st, rest)
    decreases |names|
  {
    if names == [] {
      assert Ups(0) + rest == rest && st + names == st;
    } else {
      var last := |names| - 1;
      assert (Ups(|names|) + rest)[1..] == Ups(last) + rest;
      assert (st + names)[|st + names| - 1] == names[last];
      assert (st + names)[..|st + names| - 1] == st + names[..last];
      PopNames(abs, st, names[..last], rest);
    }
  }

  /** A relative path that goes down through names and up as often contributes nothing: the rest
      alone decides. */
  lemma CancelledPrefix(names: seq<string>, rest: seq<string>)
    requires AllNames(names) && DOT !in names && DOTDOT !in names && names != []
    requires AllNames(rest) && DOT !in rest
    ensures Normalize(Join(names + Ups(|names|) + rest)) == Render(false, PushAll(false, [], rest))
  {
    var ups := Ups(|names|);
    var cs := names + ups + rest;
    assert cs == names + (ups + rest) && [] + names == names;
    JoinStart(cs);
    ComponentsOfJoin(cs);
    DropDotsFixed(cs);
    PushNames(false, [], names, ups + rest);
    PopNames(false, [], names, rest);
  }

  // ----- the loops of the source

  /** `path_normalize`. */
  method PathNormalize(path: string) returns (normalized: string)
    ensures normalized == Normalize(path)
  {
    if path == "" {
      return "";
    }
    var abs := path[0] == '/';
    var result := Collapse(abs, DropDots(Components(path)));
    normalized := Rebuild(abs, result);
  }

  /** The first loop of `path_normalize`. */
  method Collapse(abs: bool, components: seq<string>) returns (result: seq<string>)
    ensures result == PushAll(abs, [], components)
  {
    result := [];
    for i := 0 to |components|
      invariant PushAll(abs, result, components[i..]) == PushAll(abs, [], components)
    {
      var component := components[i];
      ghost var before := result;
      if component == DOTDOT {
        if abs {
          if result != [] {
            result := result[..|result| - 1];
          }
        } else if result != [] && result[|result| - 1] == DOTDOT {
          result := result + [DOTDOT];
        } else if result != [] {
          result := result[..|result| - 1];
        } else {
          result := result + [DOTDOT];
        }
      } else {
        result := result + [component];
      }
      assert result == Push(abs, before, component);
      assert components[i..][1..] == components[i + 1..];
    }
  }

  /** The last loop of `path_normalize`. */
  method Rebuild(abs: bool, result: seq<string>) returns (normalized: string)
    ensures normalized == Render(abs, result)
  {
    normalized := if abs then "/" else "";
    for i := 0 to |result|
      invariant normalized == Render(abs, result[..i])
    {
      if i > 0 {
        normalized := normalized + "/";
      }
      normalized := normalized + result[i];
      assert result[..i + 1][..i] == result[..i];
    }
    assert result[..|result|] == result;
  }

  /** The component iterator. */
  class PathComponents {
    const path: string
    var pos: nat

    ghost predicate Valid()
      reads this
    {
      pos <= |path|
    }

    /** The components still to come. */
    ghost function Remaining(): seq<string>
      requires Valid()
      reads this
    {
      Components(path[pos..])
    }

    constructor (path: string)
      ensures Valid() && this.path == path && Remaining() == Components(path)
    {
      this.path := path;
      pos := 0;
      new;
      assert path[0..] == path;
    }

    /** Yields the remaining components one by one, in order, and then nothing. */
    method Next() returns (r: Option<string>)
      requires Valid()
      modifies this
      ensures Valid()
      ensures r == None <==> old(Remaining()) == []
      ensures r == None ==> Remaining() == []
      ensures r.Some? ==> old(Remaining()) == [r.value] + Remaining()
    {
      while pos < |path| && path[pos] == '/'
        invariant pos <= |path|
        invariant Remaining() == old(Remaining())
      {
        assert path[pos..] == "/" + path[pos + 1..];
        ComponentsSlash(path[pos + 1..]);
        pos := pos + 1;
      }
      if pos >= |path| {
        assert path[pos..] == "";
        NoComponents();
        return None;
      }
      var start := pos;
      while pos < |path| && path[pos] != '/'
        invariant start <= pos <= |path|
        invariant '/' !in path[start..pos]
        invariant pos == start ==> path[pos] != '/'
      {
        assert path[start..pos + 1] == path[start..pos] + [path[pos]];
        pos := pos + 1;
      }
      assert path[start..] == path[start..pos] + path[pos..];
      ComponentsName(path[start..pos], path[pos..]);
      return Some(path[start..pos]);
    }
  }
}
