/** Symbolic links in lookup (kernel/src/fs/rootfs.rs): when following links is the plain walk,
    what the link budget does, and exactly where lookup falls short of full resolution.
  */
module SymbolicLinks {
  import opened Basics
  import opened Paths
  import opened RootFS

  // ----- links and the plain walk

  /** No component but the last is a symbolic link. */
  ghost predicate NoLinkBeforeLast(nodes: Graph, cur: nat, cs: seq<string>)
    requires Closed(nodes) && cur < |nodes|
    decreases |cs|
  {
    |cs| > 1 && FindIn(nodes, cur, cs[0]).Some? ==>
      var child := FindIn(nodes, cur, cs[0]).value;
      nodes[child].kind != SymbolicLink && NoLinkBeforeLast(nodes, child, cs[1..])
  }

  /** Without a symbolic link before the last component, following links changes nothing. */
  lemma {:induction false} FollowIsWalk(nodes: Graph, cur: nat, cs: seq<string>, depth: nat)
    requires Closed(nodes) && cur < |nodes| && NoLinkBeforeLast(nodes, cur, cs)
    ensures FollowFrom(nodes, cur, cs, depth) == WalkFrom(nodes, cur, cs)
    decreases |cs|
  {
    if cs != [] && FindIn(nodes, cur, cs[0]).Some? {
      var child := FindIn(nodes, cur, cs[0]).value;
      if |cs| == 1 {
        assert cs[1..] == [];
      } else {
        FollowIsWalk(nodes, child, cs[1..], depth);
      }
    }
  }

  /** Whatever the plain walk finds, following links finds too. */
  lemma {:induction false} WalkImpliesFollow(nodes: Graph, cur: nat, cs: seq<string>, depth: nat)
    requires Closed(nodes) && cur < |nodes| && WalkFrom(nodes, cur, cs).Some?
    ensures FollowFrom(nodes, cur, cs, depth) == WalkFrom(nodes, cur, cs)
    decreases |cs|
  {
    if cs != [] {
      var child := FindIn(nodes, cur, cs[0]).value;
      if |cs| == 1 {
        assert cs[1..] == [];
      } else {
        WalkImpliesFollow(nodes, child, cs[1..], depth);
      }
    }
  }

  /** The same for whole paths. */
  lemma LookupFollowIsWalk(nodes: Graph, path: string, depth: nat)
    requires Closed(nodes)
    ensures NoLinkBeforeLast(nodes, ROOT, Components(path)) ==>
              LookupFollow(nodes, path, depth) == LookupWalk(nodes, path)
    ensures LookupWalk(nodes, path).Some? ==> LookupFollow(nodes, path, depth) == LookupWalk(nodes, path)
    ensures depth >= MAX_SYMLINKS ==> LookupFollow(nodes, path, depth) == LookupWalk(nodes, path)
  {
    if path != "/" {
      var cs := Components(path);
      if NoLinkBeforeLast(nodes, ROOT, cs) {
        FollowIsWalk(nodes, ROOT, cs, depth);
      }
      if WalkFrom(nodes, ROOT, cs).Some? {
        WalkImpliesFollow(nodes, ROOT, cs, depth);
      }
      if depth >= MAX_SYMLINKS {
        SpentIsWalk(nodes, ROOT, cs, depth);
      }
    }
  }

  /** Once the link budget is spent, lookup is the plain walk. */
  lemma {:induction false} SpentIsWalk(nodes: Graph, cur: nat, cs: seq<string>, depth: nat)
    requires Closed(nodes) && cur < |nodes| && depth >= MAX_SYMLINKS
    ensures FollowFrom(nodes, cur, cs, depth) == WalkFrom(nodes, cur, cs)
    decreases |cs|
  {
    if cs != [] && FindIn(nodes, cur, cs[0]).Some? {
      var child := FindIn(nodes, cur, cs[0]).value;
      if |cs| == 1 {
        assert cs[1..] == [];
      } else if nodes[child].kind != SymbolicLink {
        SpentIsWalk(nodes, child, cs[1..], depth);
      }
    }
  }

  /** What is found with a smaller link budget is found with a larger one: the budget only
      turns answers into failures. */
  lemma {:induction false} FollowFromBudget(nodes: Graph, cur: nat, cs: seq<string>, depth: nat, deeper: nat)
    requires Closed(nodes) && cur < |nodes| && depth <= deeper
    requires FollowFrom(nodes, cur, cs, deeper).Some?
    ensures FollowFrom(nodes, cur, cs, depth) == FollowFrom(nodes, cur, cs, deeper)
    decreases Budget(deeper), |cs|
  {
    if |cs| > 1 {
      var child := FindIn(nodes, cur, cs[0]).value;
      if nodes[child].kind == SymbolicLink {
        LookupFollowBudget(nodes, Normalize(nodes[child].target.value), depth + 1, deeper + 1);
        FollowFromBudget(nodes, FollowLink(nodes, child, deeper).value, cs[1..], depth, deeper);
      } else {
        FollowFromBudget(nodes, child, cs[1..], depth, deeper);
      }
    }
  }

  lemma {:induction false} LookupFollowBudget(nodes: Graph, path: string, depth: nat, deeper: nat)
    requires Closed(nodes) && depth <= deeper
    requires LookupFollow(nodes, path, deeper).Some?
    ensures LookupFollow(nodes, path, depth) == LookupFollow(nodes, path, deeper)
    decreases Budget(deeper), |Components(path)| + 1
  {
    if path != "/" {
      FollowFromBudget(nodes, ROOT, Components(path), depth, deeper);
    }
  }

  // ----- cycles of links

  /** The walk from `cur` meets a symbolic link, perhaps as its last component, whose target is in
      `paths`; other links on the way are followed, whatever they lead to. */
  ghost predicate LeadsInto(nodes: Graph, cur: nat, cs: seq<string>, paths: set<string>)
    requires Closed(nodes) && cur < |nodes|
    decreases |cs|
  {
    && cs != [] && FindIn(nodes, cur, cs[0]).Some?
    && var child := FindIn(nodes, cur, cs[0]).value;
       if nodes[child].kind == SymbolicLink then
         || (nodes[child].target.Some? && Normalize(nodes[child].target.value) in paths)
         || (FollowLink(nodes, child, 0).Some? && LeadsInto(nodes, FollowLink(nodes, child, 0).value, cs[1..], paths))
       else LeadsInto(nodes, child, cs[1..], paths)
  }

  /** Every path of the set leads into the set again. */
  ghost predicate Cyclic(nodes: Graph, paths: set<string>)
    requires Closed(nodes)
  {
    forall q {:trigger Components(q)} | q in paths :: q != "/" && LeadsInto(nodes, ROOT, Components(q), paths)
  }

  /** A cycle of symbolic links, of any length and anywhere in the graph, is not followed forever:
      whatever leads into it fails as soon as the path goes on, and otherwise yields at most the
      link itself. */
  lemma {:induction false} LinkCycleFails(nodes: Graph, paths: set<string>, cur: nat, cs: seq<string>,
                                          rest: seq<string>, depth: nat)
    requires Closed(nodes) && cur < |nodes| && Cyclic(nodes, paths) && LeadsInto(nodes, cur, cs, paths)
    ensures var r := FollowFrom(nodes, cur, cs + rest, depth);
            if rest != [] then r == None else r.Some? ==> nodes[r.value].kind == SymbolicLink
    decreases Budget(depth), |cs|
  {
    var child := FindIn(nodes, cur, cs[0]).value;
    var all := cs + rest;
    assert all[0] == cs[0] && all[1..] == cs[1..] + rest;
    if nodes[child].kind != SymbolicLink {
      LinkCycleFails(nodes, paths, child, cs[1..], rest, depth);
    } else if |all| > 1 && FollowLink(nodes, child, depth).Some? {
      var t, next := Normalize(nodes[child].target.value), FollowLink(nodes, child, depth).value;
      if t in paths {
        CyclicPathFails(nodes, paths, t, depth + 1);
        assert nodes[next].kind == SymbolicLink;
      } else {
        assert FollowLink(nodes, child, 0) == Some(next) by { LookupFollowBudget(nodes, t, 1, depth + 1); }
        LinkCycleFails(nodes, paths, next, cs[1..], rest, depth);
      }
    }
  }

  lemma {:induction false} CyclicPathFails(nodes: Graph, paths: set<string>, p: string, depth: nat)
    requires Closed(nodes) && Cyclic(nodes, paths) && p in paths
    ensures LookupFollow(nodes, p, depth).Some? ==>
              nodes[LookupFollow(nodes, p, depth).value].kind == SymbolicLink
    decreases Budget(depth), |Components(p)| + 1
  {
    assert Components(p) + [] == Components(p);
    LinkCycleFails(nodes, paths, ROOT, Components(p), [], depth);
  }

  /** The ordinary cycle: `/a` leads to `/b` and `/b` to `/a`. */
  lemma TwoLinkCycle(nodes: Graph, a: string, b: string, la: nat, lb: nat, x: string, depth: nat)
    requires Closed(nodes) && IsName(a) && a != DOT && a != DOTDOT && IsName(b) && b != DOT && b != DOTDOT
    requires FindIn(nodes, ROOT, a) == Some(la) && nodes[la].kind == SymbolicLink && nodes[la].target == Some("/" + b)
    requires FindIn(nodes, ROOT, b) == Some(lb) && nodes[lb].kind == SymbolicLink && nodes[lb].target == Some("/" + a)
    ensures FollowFrom(nodes, ROOT, [a] + [x], depth) == None
  {
    var paths := {"/" + a, "/" + b};
    SingleName(a);
    SingleName(b);
    assert LeadsInto(nodes, ROOT, [a], paths) && LeadsInto(nodes, ROOT, [b], paths);
    LinkCycleFails(nodes, paths, ROOT, [a], [x], depth);
  }

  // ----- links that lead to links

  /** The reference: like `FollowFrom`, but a link that leads to a link is followed on. */
  function FullFrom(nodes: Graph, cur: nat, cs: seq<string>, depth: nat): (r: Option<nat>)
    requires Closed(nodes) && cur < |nodes|
    ensures r.Some? ==> r.value < |nodes|
    decreases Budget(depth), |cs|
  {
    if cs == [] then Some(cur)
    else
      match FindIn(nodes, cur, cs[0])
      case None => None
      case Some(child) =>
        if |cs| == 1 then Some(child)
        else
          match (if nodes[child].kind == SymbolicLink then FullLink(nodes, child, depth) else Some(child))
          case None => None
          case Some(next) =>
            if nodes[next].kind != Directory then None else FullFrom(nodes, next, cs[1..], depth)
  }

  function FullLink(nodes: Graph, link: nat, depth: nat): (r: Option<nat>)
    requires Closed(nodes) && link < |nodes|
    ensures r.Some? ==> r.value < |nodes|
    decreases Budget(depth), 0
  {
    if depth >= MAX_SYMLINKS || nodes[link].target.None? then None
    else
      match FullLookup(nodes, Normalize(nodes[link].target.value), depth + 1)
      case None => None
      case Some(next) => if nodes[next].kind == SymbolicLink then FullLink(nodes, next, depth + 1) else Some(next)
  }

  function FullLookup(nodes: Graph, path: string, depth: nat): (r: Option<nat>)
    requires Closed(nodes)
    ensures r.Some? ==> r.value < |nodes|
    decreases Budget(depth), |Components(path)| + 1
  {
    if path == "/" then Some(ROOT) else FullFrom(nodes, ROOT, Components(path), depth)
  }

  /** No link met before the last component, here or while following links, leads to a link. */
  predicate CleanFrom(nodes: Graph, cur: nat, cs: seq<string>, depth: nat)
    requires Closed(nodes) && cur < |nodes|
    decreases Budget(depth), |cs|
  {
    |cs| > 1 && FindIn(nodes, cur, cs[0]).Some? ==>
      var child := FindIn(nodes, cur, cs[0]).value;
      if nodes[child].kind == SymbolicLink then
        && CleanLink(nodes, child, depth)
        && (FollowLink(nodes, child, depth).Some? ==>
              var next := FollowLink(nodes, child, depth).value;
              nodes[next].kind != SymbolicLink && CleanFrom(nodes, next, cs[1..], depth))
      else CleanFrom(nodes, child, cs[1..], depth)
  }

  predicate CleanLink(nodes: Graph, link: nat, depth: nat)
    requires Closed(nodes) && link < |nodes|
    decreases Budget(depth), 0
  {
    depth < MAX_SYMLINKS && nodes[link].target.Some? ==>
      CleanLookup(nodes, Normalize(nodes[link].target.value), depth + 1)
  }

  predicate CleanLookup(nodes: Graph, path: string, depth: nat)
    requires Closed(nodes)
    decreases Budget(depth), |Components(path)| + 1
  {
    path == "/" || CleanFrom(nodes, ROOT, Components(path), depth)
  }

  lemma {:induction false} CleanFromIsFull(nodes: Graph, cur: nat, cs: seq<string>, depth: nat)
    requires Closed(nodes) && cur < |nodes| && CleanFrom(nodes, cur, cs, depth)
    ensures FollowFrom(nodes, cur, cs, depth) == FullFrom(nodes, cur, cs, depth)
    decreases Budget(depth), |cs|
  {
    if |cs| > 1 && FindIn(nodes, cur, cs[0]).Some? {
      var child := FindIn(nodes, cur, cs[0]).value;
      if nodes[child].kind == SymbolicLink {
        CleanLinkIsFull(nodes, child, depth);
        if FollowLink(nodes, child, depth).Some? {
          CleanFromIsFull(nodes, FollowLink(nodes, child, depth).value, cs[1..], depth);
        }
      } else {
        CleanFromIsFull(nodes, child, cs[1..], depth);
      }
    }
  }

  /** A clean link is followed in full unless it leads to a link. */
  lemma {:induction false} CleanLinkIsFull(nodes: Graph, link: nat, depth: nat)
    requires Closed(nodes) && link < |nodes| && CleanLink(nodes, link, depth)
    requires FollowLink(nodes, link, depth).Some? ==> nodes[FollowLink(nodes, link, depth).value].kind != SymbolicLink
    ensures FullLink(nodes, link, depth) == FollowLink(nodes, link, depth)
    decreases Budget(depth), 0
  {
    if depth < MAX_SYMLINKS && nodes[link].target.Some? {
      CleanLookupIsFull(nodes, Normalize(nodes[link].target.value), depth + 1);
    }
  }

  lemma {:induction false} CleanLookupIsFull(nodes: Graph, path: string, depth: nat)
    requires Closed(nodes) && CleanLookup(nodes, path, depth)
    ensures LookupFollow(nodes, path, depth) == FullLookup(nodes, path, depth)
    decreases Budget(depth), |Components(path)| + 1
  {
    if path != "/" {
      CleanFromIsFull(nodes, ROOT, Components(path), depth);
    }
  }

  lemma {:induction false} FoundIsCleanFrom(nodes: Graph, cur: nat, cs: seq<string>, depth: nat)
    requires Closed(nodes) && cur < |nodes| && FollowFrom(nodes, cur, cs, depth).Some?
    ensures CleanFrom(nodes, cur, cs, depth)
    decreases Budget(depth), |cs|
  {
    if |cs| > 1 {
      var child := FindIn(nodes, cur, cs[0]).value;
      if nodes[child].kind == SymbolicLink {
        FoundIsClean(nodes, Normalize(nodes[child].target.value), depth + 1);
        FoundIsCleanFrom(nodes, FollowLink(nodes, child, depth).value, cs[1..], depth);
      } else {
        FoundIsCleanFrom(nodes, child, cs[1..], depth);
      }
    }
  }

  lemma {:induction false} FoundIsClean(nodes: Graph, path: string, depth: nat)
    requires Closed(nodes) && LookupFollow(nodes, path, depth).Some?
    ensures CleanLookup(nodes, path, depth)
    decreases Budget(depth), |Components(path)| + 1
  {
    if path != "/" {
      FoundIsCleanFrom(nodes, ROOT, Components(path), depth);
    }
  }

  /** Lookup is full resolution where no link leads to a link, and fails everywhere else; so it is
      right exactly on clean paths and on those that full resolution does not find either. */
  lemma FollowIsFullIffClean(nodes: Graph, path: string, depth: nat)
    requires Closed(nodes)
    ensures LookupFollow(nodes, path, depth)
         == if CleanLookup(nodes, path, depth) then FullLookup(nodes, path, depth) else None
    ensures LookupFollow(nodes, path, depth) == FullLookup(nodes, path, depth)
       <==> CleanLookup(nodes, path, depth) || FullLookup(nodes, path, depth) == None
  {
    if CleanLookup(nodes, path, depth) {
      CleanLookupIsFull(nodes, path, depth);
    } else if LookupFollow(nodes, path, depth).Some? {
      FoundIsClean(nodes, path, depth);
    }
  }

  lemma OneName(nodes: Graph, cur: nat, x: string, depth: nat)
    requires Closed(nodes) && cur < |nodes|
    ensures FollowFrom(nodes, cur, [x], depth) == FindIn(nodes, cur, x)
    ensures FullFrom(nodes, cur, [x], depth) == FindIn(nodes, cur, x)
  {
  }

  /** Two links in a row: the link `a` of the root leads to the link `b`, which leads to `d`. Full
      resolution goes on from `d` while the budget lasts, lookup fails. */
  lemma LinkToLink(nodes: Graph, a: string, b: string, d: string, x: string, la: nat, lb: nat, dir: nat, depth: nat)
    requires Closed(nodes) && IsName(b) && b != DOT && b != DOTDOT && IsName(d) && d != DOT && d != DOTDOT
    requires FindIn(nodes, ROOT, a) == Some(la) && nodes[la].kind == SymbolicLink && nodes[la].target == Some("/" + b)
    requires FindIn(nodes, ROOT, b) == Some(lb) && nodes[lb].kind == SymbolicLink && nodes[lb].target == Some("/" + d)
    requires FindIn(nodes, ROOT, d) == Some(dir) && nodes[dir].kind == Directory
    ensures depth + 1 < MAX_SYMLINKS ==> FullFrom(nodes, ROOT, [a, x], depth) == FindIn(nodes, dir, x)
    ensures FollowFrom(nodes, ROOT, [a, x], depth) == None
  {
    SingleName(b);
    SingleName(d);
    OneName(nodes, dir, x, depth);
    OneName(nodes, ROOT, b, depth + 1);
    OneName(nodes, ROOT, d, depth + 2);
    assert [a, x][1..] == [x];
    if depth + 1 < MAX_SYMLINKS {
      assert FullLink(nodes, lb, depth + 1) == Some(dir);
      assert FullLink(nodes, la, depth) == Some(dir);
    }
    assert depth < MAX_SYMLINKS ==> FollowLink(nodes, la, depth) == Some(lb);
  }

  lemma {:induction false} FindAt(nodes: Graph, children: seq<nat>, i: nat, name: string)
    requires forall j | 0 <= j < |children| :: children[j] < |nodes|
    requires i < |children| && nodes[children[i]].name == name
    requires forall j | 0 <= j < i :: nodes[children[j]].name != name
    ensures Find(nodes, children, name) == Some(children[i])
  {
    if i > 0 {
      FindAt(nodes, children[1..], i - 1, name);
    }
  }

  /** So `/a/x` is not found where `/a` is a link to `/b`, `/b` a link to `/d`, and `/d/x` exists. */
  lemma LinkToLinkExample(a: string, b: string, d: string, x: string, depth: nat)
    requires IsName(b) && b != DOT && b != DOTDOT && IsName(d) && d != DOT && d != DOTDOT
    requires a != b && b != d && a != d && depth + 1 < MAX_SYMLINKS
    ensures var nodes := LinkToLinkGraph(a, b, d, x);
            && Closed(nodes)
            && FullFrom(nodes, ROOT, [a, x], depth) == Some(4)
            && FollowFrom(nodes, ROOT, [a, x], depth) == None
  {
    var nodes := LinkToLinkGraph(a, b, d, x);
    FindAt(nodes, [1, 2, 3], 0, a);
    FindAt(nodes, [1, 2, 3], 1, b);
    FindAt(nodes, [1, 2, 3], 2, d);
    FindAt(nodes, [4], 0, x);
    LinkToLink(nodes, a, b, d, x, 1, 2, 3, depth);
  }

  function LinkToLinkGraph(a: string, b: string, d: string, x: string): Graph {
    [ Node("/", Directory, None, None, [1, 2, 3], 1),
      Node(a, SymbolicLink, None, Some("/" + b), [], 2),
      Node(b, SymbolicLink, None, Some("/" + d), [], 3),
      Node(d, Directory, None, None, [4], 4),
      Node(x, RegularFile, None, None, [], 5) ]
  }

  // ----- small facts

  /** The path `/` needs no special case. */
  lemma RootPath(nodes: Graph, path: string, depth: nat)
    requires Closed(nodes)
    ensures LookupFollow(nodes, path, depth) == FollowFrom(nodes, ROOT, Components(path), depth)
  {
    if path == "/" {
      assert "/" == "/" + "";
      ComponentsSlash("");
      NoComponents();
    }
  }

  lemma SingleName(b: string)
    requires IsName(b) && b != DOT && b != DOTDOT
    ensures Components("/" + b) == [b] && Normalize("/" + b) == "/" + b
  {
    var t := "/" + b;
    ComponentsSlash(b);
    assert b + "" == b;
    ComponentsName(b, "");
    NoComponents();
    assert Render(true, [b]) == t;
    NormalIsFixed(t);
  }
}
