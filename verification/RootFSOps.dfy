/** The root file system as an object (kernel/src/fs/rootfs.rs): cached lookup and the
    functions that create and remove files, directories, hard links and symbolic links.
  */
module RootFSOps {
  import opened Basics
  import opened Bits
  import opened Paths
  import opened RootFS
  import opened SymbolicLinks
  import opened PathCache
  import opened DirectoryEntries

  class FileSystem {
    var nodes: Graph
    var nextIno: nat
    const cache: array<Entry>

    ghost predicate Valid()
      reads this, cache
    {
      Closed(nodes) && Treelike(nodes) && cache.Length == CACHE_SIZE && CacheAgrees(nodes, cache[..])
    }

    constructor ()
      ensures Valid() && fresh(cache)
      ensures nodes == [Node("/", Directory, None, None, [], 1)] && nextIno == 2
    {
      nodes := [Node("/", Directory, None, None, [], 1)];
      nextIno := 2;
      cache := new Entry[CACHE_SIZE](_ => Entry("", None));
      FreshTree(Node("/", Directory, None, None, [], 1));
    }

    /** `find_child`. */
    method FindChild(dir: nat, name: string) returns (r: Option<nat>)
      requires Closed(nodes) && dir < |nodes|
      ensures r == FindIn(nodes, dir, name)
    {
      var children := nodes[dir].children;
      for i := 0 to |children|
        invariant Find(nodes, children[i..], name) == Find(nodes, children, name)
      {
        if nodes[children[i]].name == name {
          return Some(children[i]);
        }
        assert children[i..][1..] == children[i + 1..];
      }
      return None;
    }

    method HashIndex(path: string) returns (i: nat)
      ensures i == Hash(path) % CACHE_SIZE
    {
      var hash := FNV_OFFSET;
      for j := 0 to |path|
        invariant hash == Hash(path[..j])
      {
        hash := Xor(hash, path[j] as nat) * FNV_PRIME % WORD;
        assert path[..j + 1][..j] == path[..j];
      }
      assert path[..|path|] == path;
      i := hash % CACHE_SIZE;
    }

    /** `rootfs_path_cache_lookup`. */
    method CacheLookup(path: string) returns (r: Option<nat>)
      requires cache.Length == CACHE_SIZE
      ensures r == if Hit(cache[..], path) then cache[..][Hash(path) % CACHE_SIZE].node else None
    {
      var i := HashIndex(path);
      if cache[i].path == path {
        return cache[i].node;
      }
      return None;
    }

    /** `rootfs_path_cache_add`. */
    method CacheAdd(path: string, node: nat)
      requires cache.Length == CACHE_SIZE
      modifies cache
      ensures cache[..] == old(cache[..])[Hash(path) % CACHE_SIZE := Entry(path, Some(node))]
    {
      var i := HashIndex(path);
      cache[i] := Entry(path, Some(node));
    }

    /** `follow_link_internal`. */
    method FollowLinkInternal(link: nat, depth: nat) returns (r: Option<nat>)
      requires Closed(nodes) && link < |nodes|
      ensures r == FollowLink(nodes, link, depth)
      decreases Budget(depth), 0
    {
      if depth >= MAX_SYMLINKS {
        return None;
      }
      if nodes[link].target.None? {
        return None;
      }
      var normalized := PathNormalize(nodes[link].target.value);
      r := FollowPath(normalized, depth + 1);
    }

    /** `lookup_follow`. */
    method FollowPath(path: string, depth: nat) returns (r: Option<nat>)
      requires Closed(nodes)
      ensures r == LookupFollow(nodes, path, depth)
      decreases Budget(depth), |Components(path)| + 1
    {
      if path == "/" {
        return Some(ROOT);
      }
      var cs := Components(path);
      var cur: nat := ROOT;
      for i := 0 to |cs|
        invariant cur < |nodes|
        invariant FollowFrom(nodes, cur, cs[i..], depth) == FollowFrom(nodes, ROOT, cs, depth)
      {
        assert cs[i..][0] == cs[i] && cs[i..][1..] == cs[i + 1..];
        var found := FindChild(cur, cs[i]);
        if found.None? {
          return None;
        }
        var child := found.value;
        if nodes[child].kind == SymbolicLink && i < |cs| - 1 {
          var target := FollowLinkInternal(child, depth);
          if target.None? {
            return None;
          }
          cur := target.value;
        } else {
          cur := child;
        }
        if nodes[cur].kind != Directory && i < |cs| - 1 {
          return None;
        }
      }
      return Some(cur);
    }

    /** `lookup_walk`. */
    method WalkPath(path: string) returns (r: Option<nat>)
      requires Closed(nodes)
      ensures r == LookupWalk(nodes, path)
    {
      if path == "/" {
        return Some(ROOT);
      }
      var cs := Components(path);
      var cur: nat := ROOT;
      for i := 0 to |cs|
        invariant cur < |nodes|
        invariant WalkFrom(nodes, cur, cs[i..]) == WalkFrom(nodes, ROOT, cs)
      {
        assert cs[i..][0] == cs[i] && cs[i..][1..] == cs[i + 1..];
        var found := FindChild(cur, cs[i]);
        if found.None? {
          return None;
        }
        if nodes[found.value].kind != Directory && i < |cs| - 1 {
          return None;
        }
        cur := found.value;
      }
      return Some(cur);
    }

    /** `lookup`. As long as the cache agrees with the graph it goes on agreeing, and the
        answer is that of the uncached lookup. */
    method LookupPath(path: string) returns (r: Option<nat>)
      requires Closed(nodes) && cache.Length == CACHE_SIZE
      modifies cache
      ensures r == LookupVia(nodes, old(cache[..]), path)
      ensures cache[..] == CacheAfter(nodes, old(cache[..]), path)
      ensures old(Valid()) ==> Valid() && r == Lookup(nodes, path)
    {
      if Closed(nodes) && CacheAgrees(nodes, cache[..]) {
        CachedLookup(nodes, cache[..], path);
      }
      if path == "" {
        return Some(ROOT);
      }
      var relative := path[0] != '/';
      var normalized := PathNormalize(path);
      if relative && normalized != "" && !(DOTDOT <= normalized) {
        return None;
      }
      var key := if normalized == "" then "/" else normalized;
      r := CacheLookup(key);
      if r.Some? {
        return;
      }
      r := FollowPath(key, 0);
      if r.Some? {
        CacheAdd(key, r.value);
      }
    }

    /** The loop, shared by all creating functions, that finds the receiving directory. */
    method FindParent(cs: seq<string>, exclusive: bool) returns (r: Result<nat>)
      requires Closed(nodes)
      ensures r == ParentFor(nodes, cs, exclusive)
    {
      if cs == [] {
        return Err(FileExists);
      }
      var init := cs[..|cs| - 1];
      var cur: nat := ROOT;
      for i := 0 to |init|
        invariant cur < |nodes|
        invariant DirAt(nodes, cur, init[i..]) == DirAt(nodes, ROOT, init)
      {
        assert init[i..][0] == init[i] && init[i..][1..] == init[i + 1..];
        var found := FindChild(cur, init[i]);
        if found.None? {
          return Err(NoSuchFile);
        }
        if nodes[found.value].kind != Directory {
          return Err(NotADirectory);
        }
        cur := found.value;
      }
      if exclusive {
        var found := FindChild(cur, cs[|cs| - 1]);
        if found.Some? {
          return Err(FileExists);
        }
      }
      return Ok(cur);
    }

    /** `add_child` of a new node. */
    method AddChild(dir: nat, node: Node)
      requires Valid() && dir < |nodes| && node.children == []
      modifies this`nodes
      ensures Valid() && nodes == Attach(old(nodes), dir, node)
    {
      AttachExtends(nodes, dir, node);
      AttachTreelike(nodes, dir, node);
      CacheAgreesStable(nodes, Attach(nodes, dir, node), cache[..]);
      nodes := Attach(nodes, dir, node);
    }

    /** `unlink`: the first entry of that name disappears from its directory; the cache is not
        consulted. */
    method Unlink(path: string) returns (r: Result<()>)
      requires Closed(nodes) && nodes[ROOT].kind == Directory
      modifies this`nodes
      ensures Closed(nodes) && (old(Treelike(nodes)) ==> Treelike(nodes))
      ensures r.Err? ==> nodes == old(nodes)
      ensures var cs := Components(Normalize(path)); var f := WalkFrom(old(nodes), ROOT, cs);
              if cs == [] then r == Err(IsADirectory)
              else if !IsDirectory(old(nodes), cs[..|cs| - 1]) then r.Err? && Refused(old(nodes), cs, false, r.error)
              else if f == None then r == Err(NoSuchFile)
              else if old(nodes)[f.value].kind == Directory then r == Err(IsADirectory)
              else
                && r == Ok(())
                && nodes == Detach(old(nodes), WalkFrom(old(nodes), ROOT, cs[..|cs| - 1]).value, cs[|cs| - 1])
    {
      var normalized := PathNormalize(path);
      var cs := Components(normalized);
      if cs == [] {
        return Err(IsADirectory);
      }
      ParentForAnswers(nodes, cs, false);
      var parent := FindParent(cs, false);
      if parent.Err? {
        return Err(parent.error);
      }
      EntryOfParent(nodes, cs);
      var target := FindChild(parent.value, cs[|cs| - 1]);
      if target.None? {
        return Err(NoSuchFile);
      }
      if nodes[target.value].kind == Directory {
        return Err(IsADirectory);
      }
      if Treelike(nodes) {
        DetachTreelike(nodes, parent.value, cs[|cs| - 1]);
      }
      nodes := Detach(nodes, parent.value, cs[|cs| - 1]);
      return Ok(());
    }

    /** What a creating function does, by what the plain walk finds: on success the new node is the
        last child of the directory before the last component and nothing else changes; it is refused
        with the answer that fits, and then nothing changes. */
    ghost predicate Inserted(before: Graph, cs: seq<string>, exclusive: bool, node: Node, r: Result<()>)
      reads this
      requires Closed(before)
    {
      if Admitted(before, cs, exclusive) then
        && r == Ok(())
        && nodes == Attach(before, WalkFrom(before, ROOT, cs[..|cs| - 1]).value, node.(name := cs[|cs| - 1]))
      else r.Err? && Refused(before, cs, exclusive, r.error) && nodes == before
    }

    /** `create_file`. */
    method CreateFile(path: string, data: string) returns (r: Result<()>)
      requires Valid()
      modifies this
      ensures Valid()
      ensures Inserted(old(nodes), Components(path), false,
                       Node("", RegularFile, Some(data), None, [], old(nextIno)), r)
      ensures nextIno == old(nextIno) + if r.Ok? then 1 else 0
    {
      var cs := Components(path);
      ParentForAnswers(nodes, cs, false);
      var parent := FindParent(cs, false);
      if parent.Err? {
        return Err(parent.error);
      }
      AddChild(parent.value, Node(cs[|cs| - 1], RegularFile, Some(data), None, [], nextIno));
      nextIno := nextIno + 1;
      return Ok(());
    }

    /** `create_dir`, which refuses an existing path. */
    method CreateDir(path: string) returns (r: Result<()>)
      requires Valid()
      modifies this
      ensures Valid()
      ensures Inserted(old(nodes), Components(Normalize(path)), true,
                       Node("", Directory, None, None, [], old(nextIno)), r)
      ensures nextIno == old(nextIno) + if r.Ok? then 1 else 0
    {
      var normalized := PathNormalize(path);
      var cs := Components(normalized);
      ParentForAnswers(nodes, cs, true);
      var parent := FindParent(cs, true);
      if parent.Err? {
        return Err(parent.error);
      }
      AddChild(parent.value, Node(cs[|cs| - 1], Directory, None, None, [], nextIno));
      nextIno := nextIno + 1;
      return Ok(());
    }

    /** `mkdir`, which does not look for an existing name. */
    method Mkdir(path: string) returns (r: Result<()>)
      requires Valid()
      modifies this
      ensures Valid()
      ensures Inserted(old(nodes), Components(Normalize(path)), false,
                       Node("", Directory, None, None, [], old(nextIno)), r)
      ensures nextIno == old(nextIno) + if r.Ok? then 1 else 0
    {
      var normalized := PathNormalize(path);
      var cs := Components(normalized);
      ParentForAnswers(nodes, cs, false);
      var parent := FindParent(cs, false);
      if parent.Err? {
        return Err(parent.error);
      }
      AddChild(parent.value, Node(cs[|cs| - 1], Directory, None, None, [], nextIno));
      nextIno := nextIno + 1;
      return Ok(());
    }

    /** `symlink`. */
    method Symlink(target: string, linkPath: string) returns (r: Result<()>)
      requires Valid()
      modifies this
      ensures Valid()
      ensures Inserted(old(nodes), Components(Normalize(linkPath)), false,
                       Node("", SymbolicLink, None, Some(target), [], old(nextIno)), r)
      ensures nextIno == old(nextIno) + if r.Ok? then 1 else 0
    {
      var normalized := PathNormalize(linkPath);
      var cs := Components(normalized);
      ParentForAnswers(nodes, cs, false);
      var parent := FindParent(cs, false);
      if parent.Err? {
        return Err(parent.error);
      }
      AddChild(parent.value, Node(cs[|cs| - 1], SymbolicLink, None, Some(target), [], nextIno));
      nextIno := nextIno + 1;
      return Ok(());
    }

    /** `link`: a copy of the file found at the old path, under the same inode number. */
    method Link(oldPath: string, newPath: string) returns (r: Result<()>)
      requires Valid()
      modifies this`nodes, cache
      ensures Valid()
      ensures var found := Lookup(old(nodes), Normalize(oldPath));
              if found.None? then r == Err(NoSuchFile) && nodes == old(nodes)
              else
                var f := old(nodes)[found.value];
                if f.kind == Directory then r == Err(IsADirectory) && nodes == old(nodes)
                else if f.kind == SymbolicLink then r == Err(InvalidArgument) && nodes == old(nodes)
                else Inserted(old(nodes), Components(Normalize(newPath)), true,
                              Node("", RegularFile, Some(if f.data.Some? then f.data.value else ""),
                                   f.target, [], f.ino), r)
    {
      var oldNormalized := PathNormalize(oldPath);
      var newNormalized := PathNormalize(newPath);
      var found := LookupPath(oldNormalized);
      if found.None? {
        return Err(NoSuchFile);
      }
      var f := nodes[found.value];
      if f.kind == Directory {
        return Err(IsADirectory);
      }
      if f.kind == SymbolicLink {
        return Err(InvalidArgument);
      }
      var cs := Components(newNormalized);
      ParentForAnswers(nodes, cs, true);
      var parent := FindParent(cs, true);
      if parent.Err? {
        return Err(parent.error);
      }
      AddChild(parent.value, Node(cs[|cs| - 1], RegularFile, Some(if f.data.Some? then f.data.value else ""),
                                  f.target, [], f.ino));
      return Ok(());
    }
  }

  /** Creating a file in the root, looking it up, unlinking it and looking it up again: the second
      lookup still answers with the removed node, though an uncached lookup finds nothing. */
  method StaleLookup(name: string) returns (first: Option<nat>, second: Option<nat>, uncached: Option<nat>)
    requires IsName(name) && name != DOT && name != DOTDOT
    ensures first == Some(1) && second == Some(1) && uncached == None
  {
    var path := "/" + name;
    SingleName(name);
    assert Key(path) == Some(path);
    var fs := new FileSystem();
    ghost var cache := fs.cache[..];
    assert Admitted(fs.nodes, [name], false) by { assert [name][..0] == []; }
    var created := fs.CreateFile(path, "");
    ghost var nodes := fs.nodes;
    OneFile(nodes, name, 0);
    FoundIsCached(nodes, cache, path);
    first := fs.LookupPath(path);
    var removed := fs.Unlink(path);
    assert fs.nodes == Detach(nodes, 0, name);
    second := fs.LookupPath(path);
    uncached := fs.FollowPath(path, 0);
  }

  lemma DotPath()
    ensures Components("/" + DOT) == [DOT] && Normalize("/" + DOT) == "/"
  {
    var p := "/" + DOT;
    ComponentsSlash(DOT);
    assert DOT + "" == DOT;
    ComponentsName(DOT, "");
    NoComponents();
    assert [DOT][1..] == [];
    assert Stack(p) == [];
  }

  /** `create_file` does not normalize: it creates an entry named `.` of the root, but looking up the
      same path leads to the root. */
  method DotFile() returns (created: Result<()>, found: Option<nat>)
    ensures created == Ok(()) && found == Some(ROOT)
  {
    DotPath();
    var path := "/" + DOT;
    var fs := new FileSystem();
    assert Admitted(fs.nodes, [DOT], false) by { assert [DOT][..0] == []; }
    created := fs.CreateFile(path, "");
    found := fs.LookupPath(path);
  }

  /** `create_dir` refuses to create the same directory twice, `mkdir` does not. */
  method CreateTwice(name: string) returns (first: Result<()>, second: Result<()>, third: Result<()>)
    requires IsName(name) && name != DOT && name != DOTDOT
    ensures first == Ok(()) && second == Err(FileExists) && third == Ok(())
  {
    var path := "/" + name;
    SingleName(name);
    assert [name][..0] == [] && [name][1..] == [];
    var fs := new FileSystem();
    assert Admitted(fs.nodes, [name], true);
    first := fs.CreateDir(path);
    assert fs.nodes[ROOT].children == [1] && fs.nodes[1].name == name;
    assert WalkFrom(fs.nodes, ROOT, [name]) == Some(1);
    ParentForAnswers(fs.nodes, [name], true);
    assert Refused(fs.nodes, [name], true, FileExists);
    second := fs.CreateDir(path);
    assert Admitted(fs.nodes, [name], false);
    third := fs.Mkdir(path);
  }
}
