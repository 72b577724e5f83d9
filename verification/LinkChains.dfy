/** How far the link budget of lookup reaches (kernel/src/fs/rootfs.rs): a chain of symbolic links,
    the way to the target of each leading through the next, resolves up to a length of 40.
  */
module LinkChains {
  import opened Basics
  import opened Paths
  import opened RootFS
  import opened SymbolicLinks

  predicate Proper(name: string) { IsName(name) && name != DOT && name != DOTDOT }

  /** Links of the root. Link `i`, called `names[i]`, leads to `e` in what the next link leads to, and
      the last one to `e` in the root. Behind the links, `dirs[i]` is the directory at the end of link
      `i`, and the last of them is the root. */
  ghost predicate Chain(nodes: Graph, names: seq<string>, links: seq<nat>, dirs: seq<nat>, e: string) {
    && Closed(nodes) && |names| == |links| == |dirs| - 1 > 0 && Proper(e) && dirs[|links|] == ROOT
    && (forall i | 0 <= i < |names| :: Linked(nodes, names, links, dirs, e, i))
  }

  /** Link `i` of a chain. */
  ghost predicate Linked(nodes: Graph, names: seq<string>, links: seq<nat>, dirs: seq<nat>, e: string, i: nat)
    requires Closed(nodes) && |names| == |links| == |dirs| - 1 && i < |names|
  {
    && Proper(names[i]) && LinkAt(nodes, names[i], links[i], TargetOf(names, i, e))
    && DirAt(nodes, dirs[i + 1], e, dirs[i])
  }

  /** The root holds the link with that name and target. */
  ghost predicate LinkAt(nodes: Graph, name: string, link: nat, target: seq<string>)
    requires Closed(nodes)
  {
    && FindIn(nodes, ROOT, name) == Some(link) && nodes[link].kind == SymbolicLink
    && nodes[link].target == Some(Render(true, target))
  }

  /** Directory `parent` holds the directory with that name. */
  ghost predicate DirAt(nodes: Graph, parent: nat, name: string, dir: nat)
    requires Closed(nodes)
  {
    parent < |nodes| && FindIn(nodes, parent, name) == Some(dir) && nodes[dir].kind == Directory
  }

  function TargetOf(names: seq<string>, i: nat, e: string): seq<string> {
    if i + 1 < |names| then [names[i + 1], e] else [e]
  }

  /** A path of proper names is its own normal form. */
  lemma ProperPath(cs: seq<string>)
    requires cs != [] && forall i | 0 <= i < |cs| :: Proper(cs[i])
    ensures var p := Render(true, cs); Components(p) == cs && Normalize(p) == p && p != "/"
  {
    var p := Render(true, cs);
    ComponentsOfRender(true, cs);
    assert Normal(p);
    NormalIsFixed(p);
    assert Components("/") == [] by {
      assert Render(true, []) == "/";
      ComponentsOfRender(true, []);
    }
  }

  /** One step through a link of the root. */
  lemma ThroughLink(nodes: Graph, name: string, link: nat, x: string, depth: nat)
    requires Closed(nodes) && FindIn(nodes, ROOT, name) == Some(link) && nodes[link].kind == SymbolicLink
    ensures FollowFrom(nodes, ROOT, [name, x], depth)
         == var d := FollowLink(nodes, link, depth);
            if d.Some? && nodes[d.value].kind == Directory then FindIn(nodes, d.value, x) else None
  {
    assert [name, x][1..] == [x];
    if FollowLink(nodes, link, depth).Some? {
      OneName(nodes, FollowLink(nodes, link, depth).value, x, depth);
    }
  }

  /** The last link of a chain. */
  lemma LastLink(nodes: Graph, name: string, link: nat, e: string, dir: nat, depth: nat)
    requires Closed(nodes) && Proper(e) && LinkAt(nodes, name, link, [e]) && DirAt(nodes, ROOT, e, dir)
    ensures FollowLink(nodes, link, depth) == if depth < MAX_SYMLINKS then Some(dir) else None
  {
    ProperPath([e]);
    OneName(nodes, ROOT, e, depth + 1);
  }

  /** A link that leads through another one takes one level of the budget more. */
  lemma NextLink(nodes: Graph, name: string, link: nat, name': string, link': nat, target: seq<string>, e: string,
                 dir: nat, dir': nat, depth: nat, length: nat)
    requires Closed(nodes) && Proper(e) && Proper(name') && length > 0
    requires LinkAt(nodes, name, link, [name', e]) && LinkAt(nodes, name', link', target)
    requires DirAt(nodes, dir', e, dir) && nodes[dir'].kind == Directory
    requires FollowLink(nodes, link', depth + 1) == if depth + 1 + length <= 40 then Some(dir') else None
    ensures FollowLink(nodes, link, depth) == if depth + (length + 1) <= 40 then Some(dir) else None
  {
    ProperPath([name', e]);
    ThroughLink(nodes, name', link', e, depth + 1);
    assert depth < MAX_SYMLINKS ==> FollowLink(nodes, link, depth) == FollowFrom(nodes, ROOT, [name', e], depth + 1);
  }

  /** Link `i` resolves exactly when the links from it on fit the budget. */
  lemma {:induction false} ChainResolvesIff(nodes: Graph, names: seq<string>, links: seq<nat>, dirs: seq<nat>,
                                            e: string, i: nat, depth: nat)
    requires Chain(nodes, names, links, dirs, e) && i < |links|
    ensures links[i] < |nodes| && dirs[i] < |nodes| && nodes[dirs[i]].kind == Directory
    ensures FollowLink(nodes, links[i], depth) == if depth + (|links| - i) <= 40 then Some(dirs[i]) else None
    decreases |links| - i
  {
    assert Linked(nodes, names, links, dirs, e, i);
    if i + 1 == |links| {
      LastLink(nodes, names[i], links[i], e, dirs[i], depth);
    } else {
      assert Linked(nodes, names, links, dirs, e, i + 1);
      ChainResolvesIff(nodes, names, links, dirs, e, i + 1, depth + 1);
      NextLink(nodes, names[i], links[i], names[i + 1], links[i + 1], TargetOf(names, i + 1, e), e, dirs[i],
               dirs[i + 1], depth, |links| - i - 1);
    }
  }

  /** So a path through the first link of a chain is found as long as the chain fits the budget. */
  lemma ChainLookup(nodes: Graph, names: seq<string>, links: seq<nat>, dirs: seq<nat>, e: string, x: string,
                    depth: nat)
    requires Chain(nodes, names, links, dirs, e) && Proper(x)
    ensures dirs[0] < |nodes|
    ensures LookupFollow(nodes, Render(true, [names[0], x]), depth)
         == if depth + |links| <= 40 then FindIn(nodes, dirs[0], x) else None
  {
    assert Linked(nodes, names, links, dirs, e, 0);
    ProperPath([names[0], x]);
    ChainResolvesIff(nodes, names, links, dirs, e, 0, depth);
    ThroughLink(nodes, names[0], links[0], x, depth);
  }

  // ----- chains of every length

  /** Different proper names, none of them `e`. */
  ghost predicate NamesFor(names: seq<string>, e: string) {
    && Proper(e) && (forall i | 0 <= i < |names| :: Proper(names[i]) && names[i] != e)
    && (forall i, j | 0 <= i < j < |names| :: names[i] != names[j])
  }

  /** The root, with the links and a directory `e` as its children. */
  function RootNode(n: nat): Node { Node("/", Directory, None, None, seq(n + 1, j => j + 1), 1) }

  function LinkNode(names: seq<string>, e: string, i: nat): Node
    requires i < |names|
  {
    Node(names[i], SymbolicLink, None, Some(Render(true, TargetOf(names, i, e))), [], i + 2)
  }

  /** A directory `e` inside another. */
  function DirNode(e: string, k: nat): Node { Node(e, Directory, None, None, [k + 1], k + 1) }

  /** Node 0 is the root, nodes 1 to n are the links, and from there on each directory holds the next. */
  ghost predicate ChainGraph(g: Graph, names: seq<string>, e: string) {
    var n := |names|;
    && |g| == 2 * n + 2 && g[ROOT] == RootNode(n)
    && (forall i | 0 <= i < n :: g[i + 1] == LinkNode(names, e, i))
    && (forall k | n < k <= 2 * n :: g[k] == DirNode(e, k))
    && g[2 * n + 1].name == e && g[2 * n + 1].kind == Directory && g[2 * n + 1].children == []
  }

  function MakeGraph(names: seq<string>, e: string): Graph {
    var n := |names|;
    [RootNode(n)] + seq(n, i requires 0 <= i < n => LinkNode(names, e, i))
    + seq(n, i requires 0 <= i < n => DirNode(e, n + 1 + i))
    + [Node(e, Directory, None, None, [], 2 * n + 2)]
  }

  lemma MadeChainGraph(names: seq<string>, e: string)
    ensures ChainGraph(MakeGraph(names, e), names, e)
  {
    var n, g := |names|, MakeGraph(names, e);
    forall k | n < k <= 2 * n
      ensures g[k] == DirNode(e, k)
    {
      assert g[k] == seq(n, i requires 0 <= i < n => DirNode(e, n + 1 + i))[k - n - 1];
    }
  }

  lemma ChainClosed(g: Graph, names: seq<string>, e: string)
    requires ChainGraph(g, names, e)
    ensures Closed(g)
  {
    var n := |names|;
    forall i | 0 < i <= n
      ensures g[i].children == []
    {
      assert g[i - 1 + 1] == LinkNode(names, e, i - 1);
    }
  }

  /** The name of child `j` of the root. */
  lemma ChildName(g: Graph, names: seq<string>, e: string, j: nat)
    requires ChainGraph(g, names, e) && names != [] && j <= |names|
    ensures j < |g[ROOT].children| && g[ROOT].children[j] == j + 1
    ensures g[j + 1].name == if j < |names| then names[j] else e
  {
    if j < |names| {
      assert g[j + 1] == LinkNode(names, e, j);
    }
  }

  lemma RootFinds(g: Graph, names: seq<string>, e: string, j: nat)
    requires ChainGraph(g, names, e) && NamesFor(names, e) && names != [] && j <= |names|
    ensures Closed(g) && FindIn(g, ROOT, if j < |names| then names[j] else e) == Some(j + 1)
  {
    ChainClosed(g, names, e);
    ChildName(g, names, e, j);
    forall k | 0 <= k < j
      ensures g[g[ROOT].children[k]].name != g[j + 1].name
    {
      ChildName(g, names, e, k);
    }
    FindAt(g, g[ROOT].children, j, g[j + 1].name);
  }

  lemma DirFinds(g: Graph, names: seq<string>, e: string, k: nat)
    requires ChainGraph(g, names, e) && |names| < k <= 2 * |names|
    ensures Closed(g) && DirAt(g, k, e, k + 1)
  {
    ChainClosed(g, names, e);
    assert g[k] == DirNode(e, k);
    assert k < 2 * |names| ==> g[k + 1] == DirNode(e, k + 1);
    FindAt(g, g[k].children, 0, e);
  }

  /** The links and directories of the graph, in the order of the chain. */
  function Links(n: nat): (r: seq<nat>)
    ensures |r| == n && forall i | 0 <= i < n :: r[i] == i + 1
  {
    seq(n, i => i + 1)
  }

  function Dirs(n: nat): (r: seq<nat>)
    ensures |r| == n + 1 && r[n] == ROOT && forall i | 0 <= i < n :: r[i] == 2 * n - i
  {
    seq(n, i requires 0 <= i < n => 2 * n - i) + [ROOT]
  }

  lemma GraphIsChain(g: Graph, names: seq<string>, e: string)
    requires ChainGraph(g, names, e) && NamesFor(names, e) && names != []
    ensures Chain(g, names, Links(|names|), Dirs(|names|), e)
  {
    var n := |names|;
    ChainClosed(g, names, e);
    forall i | 0 <= i < n
      ensures Linked(g, names, Links(n), Dirs(n), e, i)
    {
      RootFinds(g, names, e, i);
      assert g[i + 1] == LinkNode(names, e, i);
      if i + 1 < n {
        DirFinds(g, names, e, 2 * n - i - 1);
      } else {
        RootFinds(g, names, e, n);
        assert g[n + 1] == DirNode(e, n + 1);
      }
    }
  }

  lemma MakeChain(names: seq<string>, e: string) returns (g: Graph)
    requires NamesFor(names, e) && names != []
    ensures var n := |names|; Chain(g, names, Links(n), Dirs(n), e) && DirAt(g, 2 * n, e, 2 * n + 1)
  {
    g := MakeGraph(names, e);
    MadeChainGraph(names, e);
    GraphIsChain(g, names, e);
    DirFinds(g, names, e, 2 * |names|);
  }

  /** For any number of different names there is a chain of links under those names whose first link
      leads to a directory with one more entry. That entry is found from depth 0 through up to 40
      links, and through no more. */
  lemma LongestChain(names: seq<string>, e: string, depth: nat) returns (g: Graph)
    requires NamesFor(names, e) && names != []
    ensures var n := |names|;
            && Chain(g, names, Links(n), Dirs(n), e)
            && LookupFollow(g, Render(true, [names[0], e]), depth) == if depth + n <= 40 then Some(2 * n + 1) else None
  {
    g := MakeChain(names, e);
    ChainLookup(g, names, Links(|names|), Dirs(|names|), e, e, depth);
  }

  /** Names enough for a chain of any length: strings of different lengths. */
  lemma NamesExist(n: nat)
    ensures NamesFor(seq(n, i requires 0 <= i < n => seq(i + 2, _ => 'l')), "e")
  {
    var names := seq(n, i requires 0 <= i < n => seq(i + 2, _ => 'l'));
    forall i | 0 <= i < n
      ensures Proper(names[i]) && |names[i]| == i + 2
    {
      assert names[i][0] == 'l';
    }
  }
}
