/** The path cache of the root file system (kernel/src/fs/rootfs.rs): a direct-mapped table from
    normalized paths to nodes.
  */
module PathCache {
  import opened Basics
  import opened Bits
  import opened Paths
  import opened RootFS
  import opened SymbolicLinks

  const CACHE_SIZE: nat := 64
  const FNV_OFFSET: nat := 0xcbf29ce484222325
  const FNV_PRIME: nat := 0x100000001b3
  const WORD: nat := 0x1_0000_0000_0000_0000

  /** A bucket of the path cache. */
  datatype Entry = Entry(path: string, node: Option<nat>)

  /** The 64-bit hash of a path. */
  function Hash(p: string): (h: nat) {
    if p == "" then FNV_OFFSET
    else Xor(Hash(p[..|p| - 1]), p[|p| - 1] as nat) * FNV_PRIME % WORD
  }

  /** The hash is FNV-1a in 64 bits: it starts from the offset basis, and each further byte is mixed in
      before the multiplication by the prime. */
  lemma HashIsFnv(p: string, c: char)
    ensures Hash("") == 0xcbf29ce484222325
    ensures Hash(p + [c]) == Xor(Hash(p), c as nat) * 0x100_0000_01b3 % 0x1_0000_0000_0000_0000
  {
    assert (p + [c])[..|p|] == p;
  }

  /** Every cached node is what an uncached lookup of its path yields now. */
  ghost predicate CacheAgrees(nodes: Graph, cache: seq<Entry>)
    requires Closed(nodes)
  {
    forall i | 0 <= i < |cache| && cache[i].node.Some? :: LookupFollow(nodes, cache[i].path, 0) == cache[i].node
  }

  lemma CacheAgreesStable(nodes: Graph, nodes': Graph, cache: seq<Entry>)
    requires Closed(nodes) && Closed(nodes') && Extends(nodes, nodes')
    requires CacheAgrees(nodes, cache)
    ensures CacheAgrees(nodes', cache)
  {
    forall i | 0 <= i < |cache| && cache[i].node.Some?
      ensures LookupFollow(nodes', cache[i].path, 0) == cache[i].node
    {
      LookupFollowStable(nodes, nodes', cache[i].path, 0);
    }
  }

  /** The bucket of `key` holds a node for `key`. */
  predicate Hit(cache: seq<Entry>, key: string)
    requires |cache| == CACHE_SIZE
  {
    var e := cache[Hash(key) % CACHE_SIZE];
    e.path == key && e.node.Some?
  }

  /** What `lookup` answers for a normalized path. */
  function CachedAnswer(nodes: Graph, cache: seq<Entry>, key: string): Option<nat>
    requires Closed(nodes) && |cache| == CACHE_SIZE
  {
    if Hit(cache, key) then cache[Hash(key) % CACHE_SIZE].node else LookupFollow(nodes, key, 0)
  }

  /** The path under which `lookup` searches the cache and the graph, if it does so at all. */
  function Key(path: string): Option<string> {
    var n := Normalize(path);
    if path == "" || (!IsAbsolute(path) && n != "" && !(DOTDOT <= n)) then None
    else Some(if n == "" then "/" else n)
  }

  /** `lookup` with the given content of its cache. */
  function LookupVia(nodes: Graph, cache: seq<Entry>, path: string): Option<nat>
    requires Closed(nodes) && |cache| == CACHE_SIZE
  {
    if path == "" then Some(ROOT)
    else if Key(path).None? then None
    else CachedAnswer(nodes, cache, Key(path).value)
  }

  /** The content of the cache after `lookup`. */
  function CacheAfter(nodes: Graph, cache: seq<Entry>, path: string): (r: seq<Entry>)
    requires Closed(nodes) && |cache| == CACHE_SIZE
    ensures |r| == CACHE_SIZE
    ensures forall i | 0 <= i < CACHE_SIZE && r[i] != cache[i] ::
              && Key(path).Some? && i == Hash(Key(path).value) % CACHE_SIZE
              && r[i] == Entry(Key(path).value, LookupFollow(nodes, Key(path).value, 0)) && r[i].node.Some?
  {
    if Key(path).None? || Hit(cache, Key(path).value) || LookupFollow(nodes, Key(path).value, 0).None? then cache
    else cache[Hash(Key(path).value) % CACHE_SIZE := Entry(Key(path).value, LookupFollow(nodes, Key(path).value, 0))]
  }

  /** A path that was found is in the cache afterwards. */
  lemma FoundIsCached(nodes: Graph, cache: seq<Entry>, path: string)
    requires Closed(nodes) && |cache| == CACHE_SIZE
    requires Key(path).Some? && LookupVia(nodes, cache, path).Some?
    ensures Hit(CacheAfter(nodes, cache, path), Key(path).value)
    ensures forall nodes' | Closed(nodes') ::
              LookupVia(nodes', CacheAfter(nodes, cache, path), path) == LookupVia(nodes, cache, path)
  {
  }

  /** On a cache that agrees with the graph, lookup is the uncached lookup and keeps the agreement. */
  lemma CachedLookup(nodes: Graph, cache: seq<Entry>, path: string)
    requires Closed(nodes) && |cache| == CACHE_SIZE && CacheAgrees(nodes, cache)
    ensures LookupVia(nodes, cache, path) == Lookup(nodes, path)
    ensures CacheAgrees(nodes, CacheAfter(nodes, cache, path))
  {
  }

  lemma {:induction false} JoinPrefix(cs: seq<string>)
    requires AllNames(cs) && cs != [] && cs[0] != DOT
    ensures DOTDOT <= Join(cs) <==> DOTDOT <= cs[0]
    decreases |cs|
  {
    if |cs| > 1 {
      var init := cs[..|cs| - 1];
      JoinPrefix(init);
      JoinLength(init);
      assert Join(cs) == Join(init) + ("/" + cs[|cs| - 1]);
      assert Join(cs)[|Join(init)|] == '/';
      assert init[0] == cs[0] && |cs[0]| > 0;
    }
  }

  lemma {:induction false} JoinLength(cs: seq<string>)
    requires AllNames(cs) && cs != []
    ensures cs[0] <= Join(cs)
    decreases |cs|
  {
    if |cs| > 1 {
      JoinLength(cs[..|cs| - 1]);
    }
  }

  /** What lookup does with a path, by its first character and its normalized components: an absolute
      path is followed from the root; a relative one is refused, unless nothing remains of it or the
      first component begins with `..`, which is then followed from the root, too. */
  lemma LookupByKind(nodes: Graph, path: string)
    requires Closed(nodes)
    ensures path == "" ==> Lookup(nodes, path) == Some(ROOT)
    ensures var followed := IsAbsolute(path) || Stack(path) == [] || DOTDOT <= Stack(path)[0];
            path != "" ==> Lookup(nodes, path) == if followed then FollowFrom(nodes, ROOT, Stack(path), 0) else None
  {
    if path != "" {
      var st, n := Stack(path), Normalize(path);
      StackIsTidy(path);
      ComponentsOfRender(IsAbsolute(path), st);
      RootPath(nodes, n, 0);
      if !IsAbsolute(path) {
        assert n == Join(st);
        if st != [] {
          assert st[0] in st;
          JoinStart(st);
          JoinPrefix(st);
        }
      }
    }
  }
}
