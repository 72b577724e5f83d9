/** The in-memory root file system (kernel/src/fs/rootfs.rs): the node graph, pathname lookup
    with and without symbolic links, and the functions that add nodes.

    A node is identified by its position in `nodes`; node 0 is the root directory.
  */
module RootFS {
  import opened Basics
  import opened Sequences
  import opened Paths

  const MAX_SYMLINKS: nat := 40
  const ROOT: nat := 0

  datatype Kind = Directory | RegularFile | SymbolicLink

  datatype Node = Node(name: string, kind: Kind, data: Option<string>, target: Option<string>,
                       children: seq<nat>, ino: nat)

  type Graph = seq<Node>

  /** Every child is a node, and there is a root. */
  ghost predicate Closed(nodes: Graph) {
    |nodes| > 0 && forall i, j | 0 <= i < |nodes| && 0 <= j < |nodes[i].children| :: nodes[i].children[j] < |nodes|
  }

  /** `find_child`: the first child of that name. */
  function Find(nodes: Graph, children: seq<nat>, name: string): (r: Option<nat>)
    requires forall j | 0 <= j < |children| :: children[j] < |nodes|
    ensures r.Some? ==> r.value in children && nodes[r.value].name == name
    ensures r.None? ==> forall j | 0 <= j < |children| :: nodes[children[j]].name != name
  {
    if children == [] then None
    else if nodes[children[0]].name == name then Some(children[0])
    else Find(nodes, children[1..], name)
  }

  function FindIn(nodes: Graph, dir: nat, name: string): (r: Option<nat>)
    requires Closed(nodes) && dir < |nodes|
    ensures r.Some? ==> r.value < |nodes|
  {
    Find(nodes, nodes[dir].children, name)
  }

  // ----- lookup

  /** Walk without following symbolic links, from node `cur`. */
  function WalkFrom(nodes: Graph, cur: nat, cs: seq<string>): (r: Option<nat>)
    requires Closed(nodes) && cur < |nodes|
    ensures r.Some? ==> r.value < |nodes|
    decreases |cs|
  {
    if cs == [] then Some(cur)
    else
      match FindIn(nodes, cur, cs[0])
      case None => None
      case Some(child) =>
        if nodes[child].kind != Directory && |cs| > 1 then None else WalkFrom(nodes, child, cs[1..])
  }

  /** `lookup_walk`. */
  function LookupWalk(nodes: Graph, path: string): (r: Option<nat>)
    requires Closed(nodes)
    ensures r.Some? ==> r.value < |nodes|
  {
    if path == "/" then Some(ROOT) else WalkFrom(nodes, ROOT, Components(path))
  }

  /** Number of link levels left at the given depth. */
  function Budget(depth: nat): nat { if depth < MAX_SYMLINKS then MAX_SYMLINKS - depth else 0 }

  /** The loop of `lookup_follow`, from node `cur`: a symbolic link that is not the last
      component is replaced by what it leads to. */
  function FollowFrom(nodes: Graph, cur: nat, cs: seq<string>, depth: nat): (r: Option<nat>)
    requires Closed(nodes) && cur < |nodes|
    ensures r.Some? ==> r.value < |nodes|
    decreases Budget(depth), |cs|
  {
    if cs == [] then Some(cur)
    else
      match FindIn(nodes, cur, cs[0])
      case None => None
      case Some(child) =>
        if |cs| == 1 then Some(child)
        else
          match (if nodes[child].kind == SymbolicLink then FollowLink(nodes, child, depth) else Some(child))
          case None => None
          case Some(next) =>
            if nodes[next].kind != Directory then None else FollowFrom(nodes, next, cs[1..], depth)
  }

  /** `follow_link_internal`. */
  function FollowLink(nodes: Graph, link: nat, depth: nat): (r: Option<nat>)
    requires Closed(nodes) && link < |nodes|
    ensures r.Some? ==> r.value < |nodes|
    decreases Budget(depth), 0
  {
    if depth >= MAX_SYMLINKS || nodes[link].target.None? then None
    else LookupFollow(nodes, Normalize(nodes[link].target.value), depth + 1)
  }

  /** `lookup_follow`. */
  function LookupFollow(nodes: Graph, path: string, depth: nat): (r: Option<nat>)
    requires Closed(nodes)
    ensures r.Some? ==> r.value < |nodes|
    decreases Budget(depth), |Components(path)| + 1
  {
    if path == "/" then Some(ROOT) else FollowFrom(nodes, ROOT, Components(path), depth)
  }

  /** `lookup` as it would be without its cache. */
  function Lookup(nodes: Graph, path: string): (r: Option<nat>)
    requires Closed(nodes)
    ensures r.Some? ==> r.value < |nodes|
  {
    if path == "" then Some(ROOT)
    else
      var n := Normalize(path);
      if !IsAbsolute(path) && n != "" && !(DOTDOT <= n) then None
      else LookupFollow(nodes, if n == "" then "/" else n, 0)
  }

  // ----- growth

  /** `nodes'` has the nodes of `nodes`, unchanged but for children appended at the end. */
  ghost predicate Extends(nodes: Graph, nodes': Graph) {
    && |nodes| <= |nodes'|
    && (forall i | 0 <= i < |nodes| ::
          && nodes'[i] == nodes[i].(children := nodes'[i].children)
          && nodes[i].children <= nodes'[i].children)
  }

  lemma {:induction false} FindStable(nodes: Graph, nodes': Graph, cs: seq<nat>, cs': seq<nat>, name: string)
    requires forall j | 0 <= j < |cs| :: cs[j] < |nodes|
    requires forall j | 0 <= j < |cs'| :: cs'[j] < |nodes'|
    requires Extends(nodes, nodes') && cs <= cs'
    requires Find(nodes, cs, name).Some?
    ensures Find(nodes', cs', name) == Find(nodes, cs, name)
    decreases |cs|
  {
    assert nodes'[cs[0]].name == nodes[cs[0]].name;
    if nodes[cs[0]].name != name {
      FindStable(nodes, nodes', cs[1..], cs'[1..], name);
    }
  }

  lemma FindInStable(nodes: Graph, nodes': Graph, dir: nat, name: string)
    requires Closed(nodes) && Closed(nodes') && Extends(nodes, nodes') && dir < |nodes|
    requires FindIn(nodes, dir, name).Some?
    ensures FindIn(nodes', dir, name) == FindIn(nodes, dir, name)
  {
    FindStable(nodes, nodes', nodes[dir].children, nodes'[dir].children, name);
  }

  /** A lookup that succeeds keeps its result when the graph grows. */
  lemma {:induction false} FollowFromStable(nodes: Graph, nodes': Graph, cur: nat, cs: seq<string>, depth: nat)
    requires Closed(nodes) && Closed(nodes') && Extends(nodes, nodes') && cur < |nodes|
    requires FollowFrom(nodes, cur, cs, depth).Some?
    ensures FollowFrom(nodes', cur, cs, depth) == FollowFrom(nodes, cur, cs, depth)
    decreases Budget(depth), |cs|
  {
    if cs != [] {
      FindInStable(nodes, nodes', cur, cs[0]);
      var child := FindIn(nodes, cur, cs[0]).value;
      assert nodes'[child].kind == nodes[child].kind;
      if |cs| > 1 {
        if nodes[child].kind == SymbolicLink {
          FollowLinkStable(nodes, nodes', child, depth);
          var next := FollowLink(nodes, child, depth).value;
          assert nodes'[next].kind == nodes[next].kind;
          FollowFromStable(nodes, nodes', next, cs[1..], depth);
        } else {
          FollowFromStable(nodes, nodes', child, cs[1..], depth);
        }
      }
    }
  }

  lemma {:induction false} FollowLinkStable(nodes: Graph, nodes': Graph, link: nat, depth: nat)
    requires Closed(nodes) && Closed(nodes') && Extends(nodes, nodes') && link < |nodes|
    requires FollowLink(nodes, link, depth).Some?
    ensures FollowLink(nodes', link, depth) == FollowLink(nodes, link, depth)
    decreases Budget(depth), 0
  {
    assert nodes'[link].target == nodes[link].target;
    LookupFollowStable(nodes, nodes', Normalize(nodes[link].target.value), depth + 1);
  }

  lemma {:induction false} LookupFollowStable(nodes: Graph, nodes': Graph, path: string, depth: nat)
    requires Closed(nodes) && Closed(nodes') && Extends(nodes, nodes')
    requires LookupFollow(nodes, path, depth).Some?
    ensures LookupFollow(nodes', path, depth) == LookupFollow(nodes, path, depth)
    decreases Budget(depth), |Components(path)| + 1
  {
    if path != "/" {
      FollowFromStable(nodes, nodes', ROOT, Components(path), depth);
    }
  }

  /** A new node as the last child of directory `dir`. */
  function Attach(nodes: Graph, dir: nat, node: Node): Graph
    requires dir < |nodes|
  {
    nodes[dir := nodes[dir].(children := nodes[dir].children + [|nodes|])] + [node]
  }

  lemma AttachExtends(nodes: Graph, dir: nat, node: Node)
    requires Closed(nodes) && dir < |nodes| && node.children == []
    ensures Closed(Attach(nodes, dir, node)) && Extends(nodes, Attach(nodes, dir, node))
  {
  }

  // ----- the graph as a tree

  /** No directory holds a node twice. */
  ghost predicate Separate(nodes: Graph) {
    forall d | 0 <= d < |nodes| :: Distinct(nodes[d].children)
  }

  /** The root is a directory that no directory holds, and no node sits in two directories. */
  ghost predicate Treelike(nodes: Graph) {
    && |nodes| > 0 && nodes[ROOT].kind == Directory
    && Separate(nodes)
    && (forall d | 0 <= d < |nodes| :: ROOT !in nodes[d].children)
    && (forall d, e, n {:trigger n in nodes[d].children, n in nodes[e].children} |
          0 <= d < |nodes| && 0 <= e < |nodes| && n in nodes[d].children && n in nodes[e].children :: d == e)
  }

  lemma UniqueParent(nodes: Graph, d: nat, e: nat, a: string, b: string)
    requires Closed(nodes) && Treelike(nodes) && d < |nodes| && e < |nodes|
    requires FindIn(nodes, d, a).Some? && FindIn(nodes, d, a) == FindIn(nodes, e, b)
    ensures d == e && FindIn(nodes, d, a).value != ROOT
  {
    var n := FindIn(nodes, d, a).value;
    assert n in nodes[d].children && n in nodes[e].children;
  }

  /** The same names from different directories lead to different nodes. */
  lemma {:induction false} WalkInjective(nodes: Graph, a: nat, b: nat, cs: seq<string>)
    requires Closed(nodes) && Treelike(nodes) && a < |nodes| && b < |nodes|
    requires WalkFrom(nodes, a, cs).Some? && WalkFrom(nodes, a, cs) == WalkFrom(nodes, b, cs)
    ensures a == b
    decreases |cs|
  {
    if cs != [] {
      var x, y := FindIn(nodes, a, cs[0]).value, FindIn(nodes, b, cs[0]).value;
      WalkInjective(nodes, x, y, cs[1..]);
      UniqueParent(nodes, a, b, cs[0], cs[0]);
    }
  }

  /** Walking in two parts, through a directory in between. */
  lemma {:induction false} WalkConcat(nodes: Graph, cur: nat, a: seq<string>, b: seq<string>)
    requires Closed(nodes) && cur < |nodes| && nodes[cur].kind == Directory && b != []
    ensures WalkFrom(nodes, cur, a + b)
         == var n := WalkFrom(nodes, cur, a);
            if n.Some? && nodes[n.value].kind == Directory then WalkFrom(nodes, n.value, b) else None
    decreases |a|
  {
    if a == [] {
      assert a + b == b;
    } else {
      assert (a + b)[0] == a[0] && (a + b)[1..] == a[1..] + b;
      if FindIn(nodes, cur, a[0]).Some? {
        var child := FindIn(nodes, cur, a[0]).value;
        if nodes[child].kind == Directory {
          WalkConcat(nodes, child, a[1..], b);
        } else if |a| == 1 {
          assert a[1..] == [];
        }
      }
    }
  }

  /** A node is at one depth below the root only. */
  lemma {:induction false} WalkDepth(nodes: Graph, a: seq<string>, b: seq<string>)
    requires Closed(nodes) && Treelike(nodes)
    requires WalkFrom(nodes, ROOT, a).Some? && WalkFrom(nodes, ROOT, a) == WalkFrom(nodes, ROOT, b)
    ensures |a| == |b|
    decreases |a| + |b|
  {
    if a != [] {
      BelowRoot(nodes, a);
    }
    if b != [] {
      BelowRoot(nodes, b);
    }
    if a != [] && b != [] {
      var x := LastStep(nodes, a);
      var y := LastStep(nodes, b);
      UniqueParent(nodes, x, y, a[|a| - 1], b[|b| - 1]);
      WalkDepth(nodes, a[..|a| - 1], b[..|b| - 1]);
    }
  }

  lemma BelowRoot(nodes: Graph, a: seq<string>)
    requires Closed(nodes) && Treelike(nodes) && a != [] && WalkFrom(nodes, ROOT, a).Some?
    ensures WalkFrom(nodes, ROOT, a) != Some(ROOT)
  {
    var x := LastStep(nodes, a);
    UniqueParent(nodes, x, x, a[|a| - 1], a[|a| - 1]);
  }

  /** The directory before the last component of a walk from the root. */
  lemma LastStep(nodes: Graph, a: seq<string>) returns (d: nat)
    requires Closed(nodes) && Treelike(nodes) && a != [] && WalkFrom(nodes, ROOT, a).Some?
    ensures WalkFrom(nodes, ROOT, a[..|a| - 1]) == Some(d) && d < |nodes|
    ensures WalkFrom(nodes, ROOT, a) == FindIn(nodes, d, a[|a| - 1])
  {
    var init, last := a[..|a| - 1], a[|a| - 1];
    assert a == init + [last];
    WalkConcat(nodes, ROOT, init, [last]);
    d := WalkFrom(nodes, ROOT, init).value;
    assert [last][1..] == [];
  }

  lemma FreshTree(root: Node)
    requires root.kind == Directory && root.children == []
    ensures Closed([root]) && Treelike([root])
  {
  }

  lemma AttachTreelike(nodes: Graph, dir: nat, node: Node)
    requires Closed(nodes) && Treelike(nodes) && dir < |nodes| && node.children == []
    ensures Treelike(Attach(nodes, dir, node))
  {
    var nodes' := Attach(nodes, dir, node);
    forall d | 0 <= d < |nodes'|
      ensures Distinct(nodes'[d].children) && ROOT !in nodes'[d].children
    {
      assert d < |nodes| ==> Distinct(nodes[d].children);
    }
    forall d, e, n | 0 <= d < |nodes'| && 0 <= e < |nodes'| && n in nodes'[d].children && n in nodes'[e].children
      ensures d == e
    {
      if n != |nodes| {
        assert d < |nodes| && n in nodes[d].children && e < |nodes| && n in nodes[e].children;
      }
    }
  }
}
