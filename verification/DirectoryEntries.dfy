/** Adding and removing directory entries (kernel/src/fs/rootfs.rs), and what removal does to
    lookups.
  */
module DirectoryEntries {
  import opened Basics
  import opened Sequences
  import opened Paths
  import opened RootFS
  import opened SymbolicLinks
  import opened PathCache

  datatype Errno = FileExists | NotADirectory | NoSuchFile | IsADirectory | InvalidArgument

  datatype Result<T> = Ok(value: T) | Err(error: Errno)

  /** The directory reached through the directories `cs`, or why there is none. */
  function DirAt(nodes: Graph, cur: nat, cs: seq<string>): (r: Result<nat>)
    requires Closed(nodes) && cur < |nodes|
    ensures r.Ok? ==> r.value < |nodes|
    decreases |cs|
  {
    if cs == [] then Ok(cur)
    else
      match FindIn(nodes, cur, cs[0])
      case None => Err(NoSuchFile)
      case Some(child) =>
        if nodes[child].kind != Directory then Err(NotADirectory) else DirAt(nodes, child, cs[1..])
  }

  /** The directory that is to receive a new entry named by the components `cs`. */
  function ParentFor(nodes: Graph, cs: seq<string>, exclusive: bool): (r: Result<nat>)
    requires Closed(nodes)
    ensures r.Ok? ==> r.value < |nodes| && cs != []
  {
    if cs == [] then Err(FileExists)
    else
      match DirAt(nodes, ROOT, cs[..|cs| - 1])
      case Err(e) => Err(e)
      case Ok(d) =>
        if exclusive && FindIn(nodes, d, cs[|cs| - 1]).Some? then Err(FileExists) else Ok(d)
  }

  /** The plain walk reaches the entry of the parent directory. */
  lemma {:induction false} WalkThroughParent(nodes: Graph, cur: nat, init: seq<string>, name: string)
    requires Closed(nodes) && cur < |nodes| && DirAt(nodes, cur, init).Ok?
    ensures WalkFrom(nodes, cur, init + [name]) == FindIn(nodes, DirAt(nodes, cur, init).value, name)
    decreases |init|
  {
    if init == [] {
      assert (init + [name])[1..] == [];
    } else {
      assert (init + [name])[1..] == init[1..] + [name];
      WalkThroughParent(nodes, FindIn(nodes, cur, init[0]).value, init[1..], name);
    }
  }

  // ----- the answers, by what the plain walk finds

  /** The plain walk over `cs` ends at a directory. */
  ghost predicate IsDirectory(nodes: Graph, cs: seq<string>)
    requires Closed(nodes)
  {
    WalkFrom(nodes, ROOT, cs).Some? && nodes[WalkFrom(nodes, ROOT, cs).value].kind == Directory
  }

  /** The walk from `cur` goes through directories up to component `k`, which is missing or no
      directory. */
  ghost predicate BlockedAt(nodes: Graph, cur: nat, cs: seq<string>, k: nat, e: Errno)
    requires Closed(nodes) && cur < |nodes| && k < |cs|
  {
    var before, at := WalkFrom(nodes, cur, cs[..k]), WalkFrom(nodes, cur, cs[..k + 1]);
    && before.Some? && (k > 0 ==> nodes[before.value].kind == Directory)
    && ((e == NoSuchFile && at == None) || (e == NotADirectory && at.Some? && nodes[at.value].kind != Directory))
  }

  /** Inserting an entry under the path `cs` succeeds. */
  ghost predicate Admitted(nodes: Graph, cs: seq<string>, exclusive: bool)
    requires Closed(nodes)
  {
    cs != [] && IsDirectory(nodes, cs[..|cs| - 1]) && (exclusive ==> WalkFrom(nodes, ROOT, cs) == None)
  }

  /** It is refused with the answer `e`. */
  ghost predicate Refused(nodes: Graph, cs: seq<string>, exclusive: bool, e: Errno)
    requires Closed(nodes)
  {
    if e == FileExists then
      cs == [] || (exclusive && IsDirectory(nodes, cs[..|cs| - 1]) && WalkFrom(nodes, ROOT, cs).Some?)
    else exists k :: 0 <= k < |cs| - 1 && BlockedAt(nodes, ROOT, cs, k, e)
  }

  lemma {:induction false} DirAtAnswers(nodes: Graph, cur: nat, cs: seq<string>)
    requires Closed(nodes) && cur < |nodes|
    ensures var r := DirAt(nodes, cur, cs);
            && (r.Ok? ==> WalkFrom(nodes, cur, cs) == Some(r.value) && (cs != [] ==> nodes[r.value].kind == Directory))
            && (r.Err? ==> exists k :: 0 <= k < |cs| && BlockedAt(nodes, cur, cs, k, r.error))
    decreases |cs|
  {
    if cs != [] {
      assert cs[..0] == [] && cs[..1] == [cs[0]] && [cs[0]][1..] == [];
      var found := FindIn(nodes, cur, cs[0]);
      if found.None? {
        assert BlockedAt(nodes, cur, cs, 0, NoSuchFile);
      } else if nodes[found.value].kind != Directory {
        assert BlockedAt(nodes, cur, cs, 0, NotADirectory);
      } else {
        DirAtAnswers(nodes, found.value, cs[1..]);
        if DirAt(nodes, cur, cs).Err? {
          var e := DirAt(nodes, cur, cs).error;
          var k :| 0 <= k < |cs[1..]| && BlockedAt(nodes, found.value, cs[1..], k, e);
          BlockedBelow(nodes, cur, cs, k, e);
        } else {
          assert |cs| > 1 || cs[1..] == [];
        }
      }
    }
  }

  lemma BlockedBelow(nodes: Graph, cur: nat, cs: seq<string>, k: nat, e: Errno)
    requires Closed(nodes) && cur < |nodes| && k + 1 < |cs| && FindIn(nodes, cur, cs[0]).Some?
    requires nodes[FindIn(nodes, cur, cs[0]).value].kind == Directory
    requires BlockedAt(nodes, FindIn(nodes, cur, cs[0]).value, cs[1..], k, e)
    ensures BlockedAt(nodes, cur, cs, k + 1, e)
  {
    assert cs[..k + 1][0] == cs[0] && cs[..k + 1][1..] == cs[1..][..k];
    assert cs[..k + 2][0] == cs[0] && cs[..k + 2][1..] == cs[1..][..k + 1];
    if k == 0 {
      assert cs[1..][..k] == [];
    }
  }

  /** `ParentFor` succeeds exactly on the admitted paths, with the directory the path names, and is
      otherwise exactly the answer the path is refused with. */
  lemma ParentForAnswers(nodes: Graph, cs: seq<string>, exclusive: bool)
    requires Closed(nodes) && nodes[ROOT].kind == Directory
    ensures var r := ParentFor(nodes, cs, exclusive);
            && (r.Ok? <==> Admitted(nodes, cs, exclusive))
            && (r.Ok? ==> WalkFrom(nodes, ROOT, cs[..|cs| - 1]) == Some(r.value))
            && (forall e :: r == Err(e) <==> Refused(nodes, cs, exclusive, e))
  {
    if cs != [] {
      var init, name, r := cs[..|cs| - 1], cs[|cs| - 1], ParentFor(nodes, cs, exclusive);
      assert cs == init + [name];
      DirAtAnswers(nodes, ROOT, init);
      if DirAt(nodes, ROOT, init).Ok? {
        WalkThroughParent(nodes, ROOT, init, name);
      } else {
        var e := DirAt(nodes, ROOT, init).error;
        var k :| 0 <= k < |init| && BlockedAt(nodes, ROOT, init, k, e);
        assert init[..k] == cs[..k] && init[..k + 1] == cs[..k + 1];
        assert BlockedAt(nodes, ROOT, cs, k, e);
      }
      if IsDirectory(nodes, init) {
        DirectoryDirAt(nodes, init);
      }
      forall e, k | 0 <= k < |init| && BlockedAt(nodes, ROOT, cs, k, e)
        ensures DirAt(nodes, ROOT, init) == Err(e)
      {
        assert init == cs[..k] + [cs[k]] + init[k + 1..] && cs[..k + 1] == cs[..k] + [cs[k]];
        BlockedDirAt(nodes, cs[..k], cs[k], init[k + 1..], e);
      }
    }
  }

  /** Where the walk ends at a directory, so does the search for the parent. */
  lemma DirectoryDirAt(nodes: Graph, init: seq<string>)
    requires Closed(nodes) && nodes[ROOT].kind == Directory && IsDirectory(nodes, init)
    ensures DirAt(nodes, ROOT, init) == Ok(WalkFrom(nodes, ROOT, init).value)
  {
    WalkToDirectory(nodes, ROOT, init);
  }

  lemma {:induction false} WalkToDirectory(nodes: Graph, cur: nat, init: seq<string>)
    requires Closed(nodes) && cur < |nodes| && nodes[cur].kind == Directory
    requires WalkFrom(nodes, cur, init).Some? && nodes[WalkFrom(nodes, cur, init).value].kind == Directory
    ensures DirAt(nodes, cur, init) == Ok(WalkFrom(nodes, cur, init).value)
    decreases |init|
  {
    if init != [] {
      var child := FindIn(nodes, cur, init[0]).value;
      if |init| == 1 {
        assert init[1..] == [];
      }
      WalkToDirectory(nodes, child, init[1..]);
    }
  }

  /** Where the walk is blocked, so is the search, with the same answer. */
  lemma BlockedDirAt(nodes: Graph, pre: seq<string>, c: string, rest: seq<string>, e: Errno)
    requires Closed(nodes) && nodes[ROOT].kind == Directory && IsDirectory(nodes, pre)
    requires (e == NoSuchFile && WalkFrom(nodes, ROOT, pre + [c]) == None)
          || (e == NotADirectory && WalkFrom(nodes, ROOT, pre + [c]).Some? && !IsDirectory(nodes, pre + [c]))
    ensures DirAt(nodes, ROOT, pre + [c] + rest) == Err(e)
  {
    WalkConcat(nodes, ROOT, pre, [c]);
    DirectoryDirAt(nodes, pre);
    assert [c][1..] == [] && ([c] + rest)[0] == c;
    DirAtConcat(nodes, ROOT, pre, [c] + rest);
    assert pre + [c] + rest == pre + ([c] + rest);
  }

  lemma EntryOfParent(nodes: Graph, cs: seq<string>)
    requires Closed(nodes) && ParentFor(nodes, cs, false).Ok?
    ensures FindIn(nodes, ParentFor(nodes, cs, false).value, cs[|cs| - 1]) == WalkFrom(nodes, ROOT, cs)
  {
    var init, name := cs[..|cs| - 1], cs[|cs| - 1];
    assert cs == init + [name];
    WalkThroughParent(nodes, ROOT, init, name);
  }

  lemma {:induction false} DirAtConcat(nodes: Graph, cur: nat, a: seq<string>, b: seq<string>)
    requires Closed(nodes) && cur < |nodes| && DirAt(nodes, cur, a).Ok?
    ensures DirAt(nodes, cur, a + b) == DirAt(nodes, DirAt(nodes, cur, a).value, b)
    decreases |a|
  {
    if a == [] {
      assert a + b == b;
    } else {
      assert (a + b)[0] == a[0] && (a + b)[1..] == a[1..] + b;
      DirAtConcat(nodes, FindIn(nodes, cur, a[0]).value, a[1..], b);
    }
  }

  lemma {:induction false} DirAtStable(nodes: Graph, nodes': Graph, cur: nat, cs: seq<string>)
    requires Closed(nodes) && Closed(nodes') && Extends(nodes, nodes') && cur < |nodes|
    requires DirAt(nodes, cur, cs).Ok?
    ensures DirAt(nodes', cur, cs) == DirAt(nodes, cur, cs)
    decreases |cs|
  {
    if cs != [] {
      FindInStable(nodes, nodes', cur, cs[0]);
      var child := FindIn(nodes, cur, cs[0]).value;
      assert nodes'[child].kind == nodes[child].kind;
      DirAtStable(nodes, nodes', child, cs[1..]);
    }
  }

  lemma {:induction false} FindAppended(nodes: Graph, children: seq<nat>, c: nat, name: string)
    requires forall j | 0 <= j < |children| :: children[j] < |nodes|
    requires c < |nodes| && nodes[c].name == name
    ensures Find(nodes, children + [c], name)
         == if Find(nodes, children, name).Some? then Find(nodes, children, name) else Some(c)
    decreases |children|
  {
    if children == [] {
      assert children + [c] == [c];
    } else {
      assert (children + [c])[1..] == children[1..] + [c];
      FindAppended(nodes, children[1..], c, name);
    }
  }

  lemma {:induction false} FindSame(nodes: Graph, nodes': Graph, cs: seq<nat>, name: string)
    requires forall j | 0 <= j < |cs| :: cs[j] < |nodes|
    requires Extends(nodes, nodes')
    ensures Find(nodes', cs, name) == Find(nodes, cs, name)
    decreases |cs|
  {
    if cs != [] {
      assert nodes'[cs[0]].name == nodes[cs[0]].name;
      FindSame(nodes, nodes', cs[1..], name);
    }
  }

  /** After an insertion the plain walk leads to the new node, unless an older entry of that name
      hides it. */
  lemma InsertedIsWalked(nodes: Graph, cs: seq<string>, node: Node)
    requires Closed(nodes) && ParentFor(nodes, cs, false).Ok?
    requires node.name == cs[|cs| - 1] && node.children == []
    ensures var nodes' := Attach(nodes, ParentFor(nodes, cs, false).value, node);
            && Closed(nodes')
            && WalkFrom(nodes', ROOT, cs) == (if WalkFrom(nodes, ROOT, cs).Some? then WalkFrom(nodes, ROOT, cs)
                                              else Some(|nodes|))
  {
    var d := ParentFor(nodes, cs, false).value;
    var init, name := cs[..|cs| - 1], cs[|cs| - 1];
    var nodes' := Attach(nodes, d, node);
    assert cs == init + [name];
    AttachExtends(nodes, d, node);
    DirAtStable(nodes, nodes', ROOT, init);
    WalkThroughParent(nodes, ROOT, init, name);
    WalkThroughParent(nodes', ROOT, init, name);
    assert nodes'[d].children == nodes[d].children + [|nodes|];
    FindAppended(nodes', nodes[d].children, |nodes|, name);
    FindSame(nodes, nodes', nodes[d].children, name);
  }

  lemma {:induction false} DirectoriesNoLink(nodes: Graph, cur: nat, init: seq<string>, name: string)
    requires Closed(nodes) && cur < |nodes| && DirAt(nodes, cur, init).Ok?
    ensures NoLinkBeforeLast(nodes, cur, init + [name])
    decreases |init|
  {
    if init != [] {
      assert (init + [name])[1..] == init[1..] + [name];
      DirectoriesNoLink(nodes, FindIn(nodes, cur, init[0]).value, init[1..], name);
    }
  }

  lemma AbsoluteLookup(nodes: Graph, path: string)
    requires Closed(nodes) && IsAbsolute(path)
    ensures Lookup(nodes, path) == FollowFrom(nodes, ROOT, Stack(path), 0)
  {
    StackIsTidy(path);
    ComponentsOfRender(true, Stack(path));
    RootPath(nodes, Normalize(path), 0);
  }

  /** Looking up the path of an insertion finds the new node, or the older entry that hides it, if
      the path is absolute and free of `.` and `..`. */
  lemma InsertedIsFound(nodes: Graph, path: string, node: Node)
    requires Closed(nodes) && IsAbsolute(path) && Tidy(true, Components(path))
    requires ParentFor(nodes, Components(path), false).Ok?
    requires node.name == Components(path)[|Components(path)| - 1] && node.children == []
    ensures var cs := Components(path); var nodes' := Attach(nodes, ParentFor(nodes, cs, false).value, node);
            && Closed(nodes')
            && Lookup(nodes', path) == (if WalkFrom(nodes, ROOT, cs).Some? then WalkFrom(nodes, ROOT, cs)
                                        else Some(|nodes|))
  {
    var cs := Components(path);
    InsertedIsWalked(nodes, cs, node);
    InsertedIsFollowed(nodes, cs, node);
    AbsoluteLookup(Attach(nodes, ParentFor(nodes, cs, false).value, node), path);
    TidyStack(path);
  }

  /** The way to an insertion leads through directories only. */
  lemma InsertedIsFollowed(nodes: Graph, cs: seq<string>, node: Node)
    requires Closed(nodes) && ParentFor(nodes, cs, false).Ok? && node.children == []
    ensures var nodes' := Attach(nodes, ParentFor(nodes, cs, false).value, node);
            Closed(nodes') && FollowFrom(nodes', ROOT, cs, 0) == WalkFrom(nodes', ROOT, cs)
  {
    var d := ParentFor(nodes, cs, false).value;
    var init, nodes' := cs[..|cs| - 1], Attach(nodes, d, node);
    assert cs == init + [cs[|cs| - 1]];
    AttachExtends(nodes, d, node);
    DirAtStable(nodes, nodes', ROOT, init);
    DirectoriesNoLink(nodes', ROOT, init, cs[|cs| - 1]);
    FollowIsWalk(nodes', ROOT, cs, 0);
  }

  /** In a tree, with no link on the way of the normalized path, the condition is exact: a path with
      `.` or `..` among its components inserts the node where lookup does not go. */
  lemma InsertedIsFoundIff(nodes: Graph, path: string, node: Node)
    requires Closed(nodes) && Treelike(nodes) && IsAbsolute(path)
    requires ParentFor(nodes, Components(path), false).Ok?
    requires node.name == Components(path)[|Components(path)| - 1] && node.children == []
    requires var nodes' := Attach(nodes, ParentFor(nodes, Components(path), false).value, node);
             Closed(nodes') && NoLinkBeforeLast(nodes', ROOT, Stack(path))
    ensures var cs := Components(path); var nodes' := Attach(nodes, ParentFor(nodes, cs, false).value, node);
            Lookup(nodes', path) == WalkFrom(nodes', ROOT, cs) <==> Tidy(true, cs)
  {
    var cs, d := Components(path), ParentFor(nodes, Components(path), false).value;
    var nodes' := Attach(nodes, d, node);
    InsertedIsWalked(nodes, cs, node);
    AbsoluteLookup(nodes', path);
    FollowIsWalk(nodes', ROOT, Stack(path), 0);
    AttachTreelike(nodes, d, node);
    if Tidy(true, cs) {
      TidyStack(path);
    } else {
      ShorterStack(path);
      if WalkFrom(nodes', ROOT, Stack(path)) == WalkFrom(nodes', ROOT, cs) {
        WalkDepth(nodes', Stack(path), cs);
      }
    }
  }

  // ----- removal

  /** `remove_child`: the first child of that name goes. */
  function RemoveFirst(nodes: Graph, children: seq<nat>, name: string): (r: seq<nat>)
    requires forall j | 0 <= j < |children| :: children[j] < |nodes|
    ensures forall j | 0 <= j < |r| :: r[j] in children
  {
    if children == [] then []
    else if nodes[children[0]].name == name then children[1..]
    else [children[0]] + RemoveFirst(nodes, children[1..], name)
  }

  function Detach(nodes: Graph, dir: nat, name: string): (r: Graph)
    requires Closed(nodes) && dir < |nodes|
    ensures Closed(r)
  {
    nodes[dir := nodes[dir].(children := RemoveFirst(nodes, nodes[dir].children, name))]
  }

  /** Other names are found as before. */
  lemma {:induction false} RemoveFirstOthers(nodes: Graph, nodes': Graph, children: seq<nat>,
                                             name: string, other: string)
    requires forall j | 0 <= j < |children| :: children[j] < |nodes|
    requires |nodes'| == |nodes| && (forall i | 0 <= i < |nodes| :: nodes'[i].name == nodes[i].name)
    ensures other != name ==> Find(nodes', RemoveFirst(nodes, children, name), other) == Find(nodes, children, other)
    ensures Find(nodes', children, other) == Find(nodes, children, other)
    decreases |children|
  {
    if children != [] {
      RemoveFirstOthers(nodes, nodes', children[1..], name, other);
      if nodes[children[0]].name != name {
        assert RemoveFirst(nodes, children, name)[1..] == RemoveFirst(nodes, children[1..], name);
      }
    }
  }

  lemma {:induction false} DirAtAfterDetach(nodes: Graph, cur: nat, cs: seq<string>, dir: nat, name: string)
    requires Closed(nodes) && cur < |nodes| && dir < |nodes|
    requires FindIn(nodes, dir, name).Some? && nodes[FindIn(nodes, dir, name).value].kind != Directory
    requires DirAt(nodes, cur, cs).Ok?
    ensures DirAt(Detach(nodes, dir, name), cur, cs) == DirAt(nodes, cur, cs)
    ensures NoLinkBeforeLast(Detach(nodes, dir, name), cur, cs + [name])
    decreases |cs|
  {
    var nodes' := Detach(nodes, dir, name);
    if cs != [] {
      RemoveFirstOthers(nodes, nodes', nodes[cur].children, name, cs[0]);
      assert FindIn(nodes', cur, cs[0]) == FindIn(nodes, cur, cs[0]);
      assert (cs + [name])[1..] == cs[1..] + [name];
      DirAtAfterDetach(nodes, FindIn(nodes, cur, cs[0]).value, cs[1..], dir, name);
    }
  }

  /** The removed child is gone and the others stay distinct. */
  lemma {:induction false} RemoveFirstDistinct(nodes: Graph, children: seq<nat>, name: string)
    requires forall j | 0 <= j < |children| :: children[j] < |nodes|
    requires Distinct(children)
    ensures Distinct(RemoveFirst(nodes, children, name))
    ensures Find(nodes, children, name).Some? ==>
              Find(nodes, children, name).value !in RemoveFirst(nodes, children, name)
  {
    if children != [] && nodes[children[0]].name != name {
      RemoveFirstDistinct(nodes, children[1..], name);
      assert Distinct(children[1..]);
      forall x | x in RemoveFirst(nodes, children[1..], name)
        ensures x != children[0]
      {
        assert x in children[1..];
      }
    }
  }

  lemma DetachSeparate(nodes: Graph, dir: nat, name: string)
    requires Closed(nodes) && Separate(nodes) && dir < |nodes|
    ensures Separate(Detach(nodes, dir, name))
    ensures FindIn(nodes, dir, name).Some? ==> FindIn(Detach(nodes, dir, name), dir, name) != FindIn(nodes, dir, name)
  {
    assert Distinct(nodes[dir].children);
    RemoveFirstDistinct(nodes, nodes[dir].children, name);
    var nodes' := Detach(nodes, dir, name);
    forall d | 0 <= d < |nodes'|
      ensures Distinct(nodes'[d].children)
    {
      assert Distinct(nodes[d].children);
    }
  }

  lemma DetachTreelike(nodes: Graph, dir: nat, name: string)
    requires Closed(nodes) && Treelike(nodes) && dir < |nodes|
    ensures Treelike(Detach(nodes, dir, name))
  {
    var nodes' := Detach(nodes, dir, name);
    DetachSeparate(nodes, dir, name);
    forall d, n | 0 <= d < |nodes'| && n in nodes'[d].children
      ensures n in nodes[d].children
    {
    }
    forall d, e, n | 0 <= d < |nodes'| && 0 <= e < |nodes'| && n in nodes'[d].children && n in nodes'[e].children
      ensures d == e
    {
      assert n in nodes[d].children && n in nodes[e].children;
    }
  }

  /** Every other entry is found as before. */
  lemma DetachOthers(nodes: Graph, dir: nat, name: string, cur: nat, c: string)
    requires Closed(nodes) && dir < |nodes| && cur < |nodes| && (cur != dir || c != name)
    ensures FindIn(Detach(nodes, dir, name), cur, c) == FindIn(nodes, cur, c)
  {
    RemoveFirstOthers(nodes, Detach(nodes, dir, name), nodes[cur].children, name, c);
  }

  // ----- lookups that use an entry

  /** Resolution from `cur` finds the entry `name` of directory `dir`, on its way or while
      following a link. */
  predicate UsesFrom(nodes: Graph, cur: nat, cs: seq<string>, depth: nat, dir: nat, name: string)
    requires Closed(nodes) && cur < |nodes|
    decreases Budget(depth), |cs|
  {
    && cs != [] && FindIn(nodes, cur, cs[0]).Some?
    && var child := FindIn(nodes, cur, cs[0]).value;
       || (cur == dir && cs[0] == name)
       || (|cs| > 1 && if nodes[child].kind == SymbolicLink then
             || UsesLink(nodes, child, depth, dir, name)
             || (FollowLink(nodes, child, depth).Some?
                 && var next := FollowLink(nodes, child, depth).value;
                    nodes[next].kind == Directory && UsesFrom(nodes, next, cs[1..], depth, dir, name))
           else nodes[child].kind == Directory && UsesFrom(nodes, child, cs[1..], depth, dir, name))
  }

  predicate UsesLink(nodes: Graph, link: nat, depth: nat, dir: nat, name: string)
    requires Closed(nodes) && link < |nodes|
    decreases Budget(depth), 0
  {
    && depth < MAX_SYMLINKS && nodes[link].target.Some?
    && UsesEntry(nodes, Normalize(nodes[link].target.value), depth + 1, dir, name)
  }

  predicate UsesEntry(nodes: Graph, path: string, depth: nat, dir: nat, name: string)
    requires Closed(nodes)
    decreases Budget(depth), |Components(path)| + 1
  {
    path != "/" && UsesFrom(nodes, ROOT, Components(path), depth, dir, name)
  }

  /** Resolution that does not use the removed entry is not affected by its removal. */
  lemma {:induction false} UnusedFrom(nodes: Graph, cur: nat, cs: seq<string>, depth: nat, dir: nat, name: string)
    requires Closed(nodes) && cur < |nodes| && dir < |nodes| && FindIn(nodes, dir, name).Some?
    requires !UsesFrom(nodes, cur, cs, depth, dir, name)
    ensures FollowFrom(Detach(nodes, dir, name), cur, cs, depth) == FollowFrom(nodes, cur, cs, depth)
    decreases Budget(depth), |cs|
  {
    if cs != [] {
      DetachOthers(nodes, dir, name, cur, cs[0]);
      if |cs| > 1 && FindIn(nodes, cur, cs[0]).Some? {
        var child := FindIn(nodes, cur, cs[0]).value;
        if nodes[child].kind == SymbolicLink {
          UnusedLink(nodes, child, depth, dir, name);
          if FollowLink(nodes, child, depth).Some? {
            var next := FollowLink(nodes, child, depth).value;
            if nodes[next].kind == Directory {
              UnusedFrom(nodes, next, cs[1..], depth, dir, name);
            }
          }
        } else if nodes[child].kind == Directory {
          UnusedFrom(nodes, child, cs[1..], depth, dir, name);
        }
      }
    }
  }

  lemma {:induction false} UnusedLink(nodes: Graph, link: nat, depth: nat, dir: nat, name: string)
    requires Closed(nodes) && link < |nodes| && dir < |nodes| && FindIn(nodes, dir, name).Some?
    requires !UsesLink(nodes, link, depth, dir, name)
    ensures FollowLink(Detach(nodes, dir, name), link, depth) == FollowLink(nodes, link, depth)
    decreases Budget(depth), 0
  {
    var nodes' := Detach(nodes, dir, name);
    assert nodes'[link].target == nodes[link].target;
    if depth < MAX_SYMLINKS && nodes[link].target.Some? {
      var t := Normalize(nodes[link].target.value);
      LinkStep(nodes, link, t, depth);
      LinkStep(nodes', link, t, depth);
      UnusedEntry(nodes, t, depth + 1, dir, name);
    }
  }

  lemma LinkStep(nodes: Graph, link: nat, t: string, depth: nat)
    requires Closed(nodes) && link < |nodes| && depth < MAX_SYMLINKS && nodes[link].target.Some?
    requires t == Normalize(nodes[link].target.value)
    ensures FollowLink(nodes, link, depth) == LookupFollow(nodes, t, depth + 1)
  {
  }

  lemma {:induction false} UnusedEntry(nodes: Graph, path: string, depth: nat, dir: nat, name: string)
    requires Closed(nodes) && dir < |nodes| && FindIn(nodes, dir, name).Some?
    requires !UsesEntry(nodes, path, depth, dir, name)
    ensures LookupFollow(Detach(nodes, dir, name), path, depth) == LookupFollow(nodes, path, depth)
    decreases Budget(depth), |Components(path)| + 1
  {
    if path != "/" {
      UnusedFrom(nodes, ROOT, Components(path), depth, dir, name);
    }
  }

  /** The entry is removed and no other entry of the directory has its name. */
  ghost predicate Gone(nodes: Graph, dir: nat, name: string) {
    && Closed(nodes) && dir < |nodes| && FindIn(nodes, dir, name).Some?
    && FindIn(Detach(nodes, dir, name), dir, name) == None
  }

  /** Resolution that uses the removed entry fails when no other entry has that name. */
  lemma {:induction false} UsedFrom(nodes: Graph, cur: nat, cs: seq<string>, depth: nat, dir: nat, name: string)
    requires Gone(nodes, dir, name) && cur < |nodes| && UsesFrom(nodes, cur, cs, depth, dir, name)
    ensures FollowFrom(Detach(nodes, dir, name), cur, cs, depth) == None
    decreases Budget(depth), |cs|
  {
    if cur != dir || cs[0] != name {
      DetachOthers(nodes, dir, name, cur, cs[0]);
      var child := FindIn(nodes, cur, cs[0]).value;
      if nodes[child].kind != SymbolicLink {
        UsedFrom(nodes, child, cs[1..], depth, dir, name);
      } else if UsesLink(nodes, child, depth, dir, name) {
        UsedEntry(nodes, Normalize(nodes[child].target.value), depth + 1, dir, name);
      } else {
        UnusedLink(nodes, child, depth, dir, name);
        UsedFrom(nodes, FollowLink(nodes, child, depth).value, cs[1..], depth, dir, name);
      }
    }
  }

  lemma {:induction false} UsedEntry(nodes: Graph, path: string, depth: nat, dir: nat, name: string)
    requires Gone(nodes, dir, name) && UsesEntry(nodes, path, depth, dir, name)
    ensures LookupFollow(Detach(nodes, dir, name), path, depth) == None
    decreases Budget(depth), |Components(path)| + 1
  {
    UsedFrom(nodes, ROOT, Components(path), depth, dir, name);
  }

  // ----- the entry of a regular file

  /** The entry is that of a regular file. */
  ghost predicate FileEntry(nodes: Graph, dir: nat, name: string) {
    && Closed(nodes) && dir < |nodes| && FindIn(nodes, dir, name).Some?
    && nodes[FindIn(nodes, dir, name).value].kind == RegularFile
  }

  /** A path that uses the entry of a regular file and leads anywhere, leads to the file. */
  lemma {:induction false} FileIsLast(nodes: Graph, cur: nat, cs: seq<string>, depth: nat, dir: nat, name: string)
    requires FileEntry(nodes, dir, name) && cur < |nodes| && UsesFrom(nodes, cur, cs, depth, dir, name)
    requires FollowFrom(nodes, cur, cs, depth).Some?
    ensures FollowFrom(nodes, cur, cs, depth) == FindIn(nodes, dir, name)
    decreases Budget(depth), |cs|
  {
    if |cs| > 1 {
      var child := FindIn(nodes, cur, cs[0]).value;
      if nodes[child].kind != SymbolicLink {
        FileIsLast(nodes, child, cs[1..], depth, dir, name);
      } else {
        NotInsideLink(nodes, child, depth, dir, name);
        FileIsLast(nodes, FollowLink(nodes, child, depth).value, cs[1..], depth, dir, name);
      }
    }
  }

  /** A link that leads to a directory does not use the entry. */
  lemma {:induction false} NotInsideLink(nodes: Graph, link: nat, depth: nat, dir: nat, name: string)
    requires FileEntry(nodes, dir, name) && link < |nodes| && FollowLink(nodes, link, depth).Some?
    requires nodes[FollowLink(nodes, link, depth).value].kind == Directory
    ensures !UsesLink(nodes, link, depth, dir, name)
    decreases Budget(depth), 0
  {
    var t := Normalize(nodes[link].target.value);
    LinkStep(nodes, link, t, depth);
    if UsesEntry(nodes, t, depth + 1, dir, name) {
      FilePathEnds(nodes, t, depth + 1, dir, name);
    }
  }

  lemma {:induction false} FilePathEnds(nodes: Graph, path: string, depth: nat, dir: nat, name: string)
    requires FileEntry(nodes, dir, name) && UsesEntry(nodes, path, depth, dir, name)
    requires LookupFollow(nodes, path, depth).Some?
    ensures LookupFollow(nodes, path, depth) == FindIn(nodes, dir, name)
    decreases Budget(depth), |Components(path)| + 1
  {
    FileIsLast(nodes, ROOT, Components(path), depth, dir, name);
  }

  /** After the removal it leads to the next entry of that name, if any. */
  lemma {:induction false} FileRemoved(nodes: Graph, cur: nat, cs: seq<string>, depth: nat, dir: nat, name: string)
    requires FileEntry(nodes, dir, name) && cur < |nodes| && UsesFrom(nodes, cur, cs, depth, dir, name)
    requires FollowFrom(nodes, cur, cs, depth).Some?
    ensures FollowFrom(Detach(nodes, dir, name), cur, cs, depth) == FindIn(Detach(nodes, dir, name), dir, name)
    decreases Budget(depth), |cs|
  {
    if cur != dir || cs[0] != name {
      var nodes', child := Detach(nodes, dir, name), FindIn(nodes, cur, cs[0]).value;
      var next := if nodes[child].kind == SymbolicLink then FollowLink(nodes, child, depth) else Some(child);
      assert FindIn(nodes', cur, cs[0]) == Some(child) by { DetachOthers(nodes, dir, name, cur, cs[0]); }
      if nodes[child].kind == SymbolicLink {
        assert FollowLink(nodes', child, depth) == next && !UsesLink(nodes, child, depth, dir, name) by {
          NotInsideLink(nodes, child, depth, dir, name);
          UnusedLink(nodes, child, depth, dir, name);
        }
      }
      FollowStep(nodes', cur, cs, child, next.value, depth);
      FileRemoved(nodes, next.value, cs[1..], depth, dir, name);
    }
  }

  lemma FollowStep(nodes: Graph, cur: nat, cs: seq<string>, child: nat, next: nat, depth: nat)
    requires Closed(nodes) && cur < |nodes| && |cs| > 1 && FindIn(nodes, cur, cs[0]) == Some(child)
    requires Some(next) == if nodes[child].kind == SymbolicLink then FollowLink(nodes, child, depth) else Some(child)
    requires nodes[next].kind == Directory
    ensures FollowFrom(nodes, cur, cs, depth) == FollowFrom(nodes, next, cs[1..], depth)
  {
  }

  // ----- the cache after unlink

  /** A cached path stays right if its resolution does not use the removed entry. Where the entry is
      that of a regular file, or the only one of its name, the whole cache stays right exactly when
      no cached path uses it. */
  lemma UnlinkKeepsCacheIff(nodes: Graph, cache: seq<Entry>, dir: nat, name: string)
    requires Closed(nodes) && CacheAgrees(nodes, cache) && dir < |nodes| && FindIn(nodes, dir, name).Some?
    ensures forall i | 0 <= i < |cache| && cache[i].node.Some? && !UsesEntry(nodes, cache[i].path, 0, dir, name) ::
              LookupFollow(Detach(nodes, dir, name), cache[i].path, 0) == cache[i].node
    ensures Gone(nodes, dir, name) || (FileEntry(nodes, dir, name) && Separate(nodes)) ==>
              (CacheAgrees(Detach(nodes, dir, name), cache) <==>
               forall i | 0 <= i < |cache| && cache[i].node.Some? :: !UsesEntry(nodes, cache[i].path, 0, dir, name))
  {
    forall i | 0 <= i < |cache| && cache[i].node.Some? && !UsesEntry(nodes, cache[i].path, 0, dir, name)
      ensures LookupFollow(Detach(nodes, dir, name), cache[i].path, 0) == cache[i].node
    {
      UnusedEntry(nodes, cache[i].path, 0, dir, name);
    }
    if Gone(nodes, dir, name) || (FileEntry(nodes, dir, name) && Separate(nodes)) {
      forall i | 0 <= i < |cache| && cache[i].node.Some? && UsesEntry(nodes, cache[i].path, 0, dir, name)
        ensures LookupFollow(Detach(nodes, dir, name), cache[i].path, 0) != cache[i].node
      {
        UsedIsStale(nodes, cache[i].path, 0, dir, name);
      }
    }
  }

  lemma UsedIsStale(nodes: Graph, path: string, depth: nat, dir: nat, name: string)
    requires Gone(nodes, dir, name) || (FileEntry(nodes, dir, name) && Separate(nodes))
    requires UsesEntry(nodes, path, depth, dir, name) && LookupFollow(nodes, path, depth).Some?
    ensures LookupFollow(Detach(nodes, dir, name), path, depth) != LookupFollow(nodes, path, depth)
  {
    if Gone(nodes, dir, name) {
      UsedEntry(nodes, path, depth, dir, name);
    } else {
      FilePathEnds(nodes, path, depth, dir, name);
      FileRemoved(nodes, ROOT, Components(path), depth, dir, name);
      DetachSeparate(nodes, dir, name);
    }
  }

  /** With a second entry of the removed name a path that uses the entry may stay right: two links
      `l` in the root, both to `/d`, which holds `x`. */
  lemma SecondLinkExample(l: string, d: string, x: string, depth: nat)
    requires IsName(d) && d != DOT && d != DOTDOT && l != d && depth < MAX_SYMLINKS
    ensures var nodes := TwoLinksGraph(l, d, x);
            && Closed(nodes) && UsesFrom(nodes, ROOT, [l, x], depth, ROOT, l)
            && FollowFrom(nodes, ROOT, [l, x], depth) == Some(4)
            && FollowFrom(Detach(nodes, ROOT, l), ROOT, [l, x], depth) == Some(4)
  {
    var nodes := TwoLinksGraph(l, d, x);
    FindAt(nodes, [1, 2, 3], 0, l);
    FindAt(nodes, [1, 2, 3], 2, d);
    FindAt(nodes, [4], 0, x);
    ThroughLink(nodes, l, d, x, 1, 3, depth);
    var nodes' := Detach(nodes, ROOT, l);
    assert nodes'[ROOT].children == [2, 3];
    FindAt(nodes', [2, 3], 0, l);
    FindAt(nodes', [2, 3], 1, d);
    FindAt(nodes', [4], 0, x);
    ThroughLink(nodes', l, d, x, 2, 3, depth);
  }

  lemma ThroughLink(nodes: Graph, l: string, d: string, x: string, link: nat, dir: nat, depth: nat)
    requires Closed(nodes) && IsName(d) && d != DOT && d != DOTDOT && depth < MAX_SYMLINKS
    requires FindIn(nodes, ROOT, l) == Some(link) && nodes[link].kind == SymbolicLink
    requires nodes[link].target == Some("/" + d)
    requires FindIn(nodes, ROOT, d) == Some(dir) && nodes[dir].kind == Directory
    ensures FollowFrom(nodes, ROOT, [l, x], depth) == FindIn(nodes, dir, x)
  {
    SingleName(d);
    OneName(nodes, ROOT, d, depth + 1);
    assert [l, x][1..] == [x];
    assert FollowLink(nodes, link, depth) == Some(dir);
    OneName(nodes, dir, x, depth);
  }

  function TwoLinksGraph(l: string, d: string, x: string): Graph {
    [ Node("/", Directory, None, None, [1, 2, 3], 1),
      Node(l, SymbolicLink, None, Some("/" + d), [], 2),
      Node(l, SymbolicLink, None, Some("/" + d), [], 3),
      Node(d, Directory, None, None, [4], 4),
      Node(x, RegularFile, None, None, [], 5) ]
  }

  /** The path of an entry leads to the entry; after the removal of the entry it leads to the next
      entry of that name, if any, which is another node. */
  lemma UnlinkedPath(nodes: Graph, cs: seq<string>, dir: nat, depth: nat)
    requires Closed(nodes) && Separate(nodes) && Tidy(true, cs) && ParentFor(nodes, cs, false) == Ok(dir)
    requires var f := FindIn(nodes, dir, cs[|cs| - 1]); f.Some? && nodes[f.value].kind != Directory
    ensures var key, name := Render(true, cs), cs[|cs| - 1]; var nodes' := Detach(nodes, dir, name);
            && LookupFollow(nodes, key, depth) == FindIn(nodes, dir, name)
            && LookupFollow(nodes', key, depth) == FindIn(nodes', dir, name) != FindIn(nodes, dir, name)
  {
    var init, name := cs[..|cs| - 1], cs[|cs| - 1];
    var nodes' := Detach(nodes, dir, name);
    assert cs == init + [name];
    assert Render(true, cs) != "/" && Components(Render(true, cs)) == cs by {
      ComponentsOfRender(true, cs);
      JoinStart(cs);
    }
    DetachSeparate(nodes, dir, name);
    assert FollowFrom(nodes', ROOT, cs, depth) == FindIn(nodes', dir, name) by {
      DirAtAfterDetach(nodes, ROOT, init, dir, name);
      FollowIsWalk(nodes', ROOT, cs, depth);
      WalkThroughParent(nodes', ROOT, init, name);
    }
    assert FollowFrom(nodes, ROOT, cs, depth) == FindIn(nodes, dir, name) by {
      WalkThroughParent(nodes, ROOT, init, name);
      WalkImpliesFollow(nodes, ROOT, cs, depth);
    }
  }

  /** The removed path itself, whether or not a second entry of its name appears in its place: the
      cached lookup is right afterwards exactly when the path was not in the cache. */
  lemma UnlinkStaleIffCached(nodes: Graph, cache: seq<Entry>, cs: seq<string>, dir: nat)
    requires Closed(nodes) && Separate(nodes) && |cache| == CACHE_SIZE && CacheAgrees(nodes, cache)
    requires Tidy(true, cs) && ParentFor(nodes, cs, false) == Ok(dir)
    requires var f := FindIn(nodes, dir, cs[|cs| - 1]); f.Some? && nodes[f.value].kind != Directory
    ensures var key, nodes' := Render(true, cs), Detach(nodes, dir, cs[|cs| - 1]);
            CachedAnswer(nodes', cache, key) == LookupFollow(nodes', key, 0) <==> !Hit(cache, key)
  {
    UnlinkedPath(nodes, cs, dir, 0);
  }

  /** A root with a single file, and what is left after the file is unlinked. */
  lemma OneFile(nodes: Graph, name: string, depth: nat)
    requires IsName(name) && name != DOT && name != DOTDOT
    requires |nodes| == 2 && nodes[0].children == [1] && nodes[1].children == []
    requires nodes[1].name == name && nodes[1].kind == RegularFile
    ensures Closed(nodes) && ParentFor(nodes, [name], false) == Ok(0) && FindIn(nodes, 0, name) == Some(1)
    ensures LookupFollow(nodes, "/" + name, depth) == Some(1)
    ensures LookupFollow(Detach(nodes, 0, name), "/" + name, depth) == None
  {
    var nodes' := Detach(nodes, 0, name);
    SingleName(name);
    assert [name][..0] == [];
    assert nodes'[0].children == [];
    OneName(nodes, 0, name, depth);
    OneName(nodes', 0, name, depth);
  }
}
