/** Symbolic links with relative targets (kernel/src/fs/rootfs.rs). Lookup resolves every target
    from the root; the reference here resolves a relative target from the directory of the link.
  */
module RelativeLinks {
  import opened Basics
  import opened Paths
  import opened RootFS
  import opened SymbolicLinks

  // ----- the reference

  /** The nodes from the root, or from wherever resolution began, down to the present one. */
  type Trail = seq<nat>

  ghost predicate OnGraph(nodes: Graph, trail: Trail) {
    trail != [] && forall i | 0 <= i < |trail| :: trail[i] < |nodes|
  }

  function Here(trail: Trail): nat
    requires trail != []
  {
    trail[|trail| - 1]
  }

  /** `..` goes up and stops at the beginning. */
  function Up(trail: Trail): (r: Trail)
    requires trail != []
    ensures r != []
  {
    if |trail| > 1 then trail[..|trail| - 1] else trail
  }

  /** Resolution from the end of `trail`: `.` stays, `..` goes up, and a link before the last
      component is replaced by what it leads to from the directory that holds it. */
  ghost function SplicedFrom(nodes: Graph, trail: Trail, cs: seq<string>, depth: nat): (r: Option<Trail>)
    requires Closed(nodes) && OnGraph(nodes, trail)
    ensures r.Some? ==> OnGraph(nodes, r.value)
    decreases Budget(depth), |cs|
  {
    if cs == [] then Some(trail)
    else if cs[0] == DOT then SplicedFrom(nodes, trail, cs[1..], depth)
    else if cs[0] == DOTDOT then SplicedFrom(nodes, Up(trail), cs[1..], depth)
    else
      match FindIn(nodes, Here(trail), cs[0])
      case None => None
      case Some(child) =>
        if |cs| == 1 then Some(trail + [child])
        else
          match (if nodes[child].kind == SymbolicLink then SplicedLink(nodes, trail, child, depth)
                 else Some(trail + [child]))
          case None => None
          case Some(next) =>
            if nodes[Here(next)].kind != Directory then None else SplicedFrom(nodes, next, cs[1..], depth)
  }

  /** What the link `link` in the directory at the end of `trail` leads to. */
  ghost function SplicedLink(nodes: Graph, trail: Trail, link: nat, depth: nat): (r: Option<Trail>)
    requires Closed(nodes) && OnGraph(nodes, trail) && link < |nodes|
    ensures r.Some? ==> OnGraph(nodes, r.value)
    decreases Budget(depth), 0
  {
    if depth >= MAX_SYMLINKS || nodes[link].target.None? then None
    else
      var t := Normalize(nodes[link].target.value);
      SplicedFrom(nodes, if IsAbsolute(t) then [ROOT] else trail, Components(t), depth + 1)
  }

  /** The node a resolution ends at. */
  function End(r: Option<Trail>): Option<nat>
    requires r.Some? ==> r.value != []
  {
    if r.Some? then Some(Here(r.value)) else None
  }

  // ----- where the two agree

  predicate Dotless(cs: seq<string>) { DOT !in cs && DOTDOT !in cs }

  /** The target is absolute, or the link sits in the root and the target does not go up. */
  predicate AnchoredTarget(nodes: Graph, dir: nat, link: nat)
    requires link < |nodes| && nodes[link].target.Some?
  {
    var t := Normalize(nodes[link].target.value);
    IsAbsolute(t) || (dir == ROOT && DOTDOT !in Components(t))
  }

  /** Every link met before the last component, here or while following links, is anchored. */
  predicate AnchoredFrom(nodes: Graph, cur: nat, cs: seq<string>, depth: nat)
    requires Closed(nodes) && cur < |nodes|
    decreases Budget(depth), |cs|
  {
    |cs| > 1 && FindIn(nodes, cur, cs[0]).Some? ==>
      var child := FindIn(nodes, cur, cs[0]).value;
      if nodes[child].kind == SymbolicLink then
        && AnchoredLink(nodes, cur, child, depth)
        && (FollowLink(nodes, child, depth).Some? ==>
              AnchoredFrom(nodes, FollowLink(nodes, child, depth).value, cs[1..], depth))
      else AnchoredFrom(nodes, child, cs[1..], depth)
  }

  predicate AnchoredLink(nodes: Graph, dir: nat, link: nat, depth: nat)
    requires Closed(nodes) && link < |nodes|
    decreases Budget(depth), 0
  {
    depth < MAX_SYMLINKS && nodes[link].target.Some? ==>
      && AnchoredTarget(nodes, dir, link)
      && AnchoredFrom(nodes, ROOT, Components(Normalize(nodes[link].target.value)), depth + 1)
  }

  lemma TargetTidy(target: string)
    ensures Tidy(IsAbsolute(Normalize(target)), Components(Normalize(target)))
  {
    if target == "" {
      NoComponents();
    } else {
      StackIsTidy(target);
      ComponentsOfRender(IsAbsolute(target), Stack(target));
    }
  }

  /** On anchored paths lookup resolves every target as from the directory of its link. */
  lemma {:induction false} AnchoredIsSpliced(nodes: Graph, trail: Trail, cs: seq<string>, depth: nat)
    requires Closed(nodes) && OnGraph(nodes, trail) && Dotless(cs) && AnchoredFrom(nodes, Here(trail), cs, depth)
    ensures End(SplicedFrom(nodes, trail, cs, depth)) == FollowFrom(nodes, Here(trail), cs, depth)
    decreases Budget(depth), |cs|
  {
    if |cs| > 1 && FindIn(nodes, Here(trail), cs[0]).Some? {
      var child := FindIn(nodes, Here(trail), cs[0]).value;
      if nodes[child].kind == SymbolicLink {
        AnchoredLinkIsSpliced(nodes, trail, child, depth);
        var next := SplicedLink(nodes, trail, child, depth);
        if next.Some? {
          AnchoredIsSpliced(nodes, next.value, cs[1..], depth);
        }
      } else {
        AnchoredIsSpliced(nodes, trail + [child], cs[1..], depth);
      }
    }
  }

  lemma {:induction false} AnchoredLinkIsSpliced(nodes: Graph, trail: Trail, link: nat, depth: nat)
    requires Closed(nodes) && OnGraph(nodes, trail) && link < |nodes|
    requires AnchoredLink(nodes, Here(trail), link, depth)
    ensures End(SplicedLink(nodes, trail, link, depth)) == FollowLink(nodes, link, depth)
    decreases Budget(depth), 0
  {
    if depth < MAX_SYMLINKS && nodes[link].target.Some? {
      var t := Normalize(nodes[link].target.value);
      var base := if IsAbsolute(t) then [ROOT] else trail;
      assert Here(base) == ROOT && Dotless(Components(t)) by {
        TargetTidy(nodes[link].target.value);
      }
      assert FollowLink(nodes, link, depth) == FollowFrom(nodes, ROOT, Components(t), depth + 1) by {
        RootPath(nodes, t, depth + 1);
      }
      AnchoredIsSpliced(nodes, base, Components(t), depth + 1);
    }
  }

  lemma {:induction false} NoLinkIsAnchored(nodes: Graph, cur: nat, cs: seq<string>, depth: nat)
    requires Closed(nodes) && cur < |nodes| && NoLinkBeforeLast(nodes, cur, cs)
    ensures AnchoredFrom(nodes, cur, cs, depth)
    decreases |cs|
  {
    if |cs| > 1 && FindIn(nodes, cur, cs[0]).Some? {
      NoLinkIsAnchored(nodes, FindIn(nodes, cur, cs[0]).value, cs[1..], depth);
    }
  }

  // ----- one link on the way: where exactly they agree

  /** Going on from a node that resolution has reached. */
  function Onward(nodes: Graph, n: Option<nat>, rest: seq<string>, depth: nat): Option<nat>
    requires Closed(nodes) && (n.Some? ==> n.value < |nodes|)
  {
    if n.Some? && nodes[n.value].kind == Directory then FollowFrom(nodes, n.value, rest, depth) else None
  }

  /** Without further links, a target and the rest of the path are one plain walk. */
  lemma {:induction false} OnwardIsWalk(nodes: Graph, cur: nat, ts: seq<string>, rest: seq<string>, depth: nat)
    requires Closed(nodes) && cur < |nodes| && nodes[cur].kind == Directory && rest != []
    requires NoLinkBeforeLast(nodes, cur, ts + rest)
    ensures var n := FollowFrom(nodes, cur, ts, depth + 1);
            && Onward(nodes, n, rest, depth) == WalkFrom(nodes, cur, ts + rest)
            && (n.Some? && nodes[n.value].kind == Directory ==> NoLinkBeforeLast(nodes, n.value, rest))
    decreases |ts|
  {
    if ts == [] {
      assert ts + rest == rest;
      FollowIsWalk(nodes, cur, rest, depth);
    } else {
      assert (ts + rest)[0] == ts[0] && (ts + rest)[1..] == ts[1..] + rest;
      if FindIn(nodes, cur, ts[0]).Some? {
        var child := FindIn(nodes, cur, ts[0]).value;
        if nodes[child].kind == Directory {
          OnwardIsWalk(nodes, child, ts[1..], rest, depth);
          assert |ts| == 1 ==> ts[1..] == [];
        }
      }
    }
  }

  lemma {:induction false} NoLinkPrefix(nodes: Graph, cur: nat, ts: seq<string>, rest: seq<string>)
    requires Closed(nodes) && cur < |nodes| && NoLinkBeforeLast(nodes, cur, ts + rest)
    ensures NoLinkBeforeLast(nodes, cur, ts)
    decreases |ts|
  {
    if |ts| > 1 && FindIn(nodes, cur, ts[0]).Some? {
      assert (ts + rest)[0] == ts[0] && (ts + rest)[1..] == ts[1..] + rest;
      NoLinkPrefix(nodes, FindIn(nodes, cur, ts[0]).value, ts[1..], rest);
    }
  }

  /** The link `l` of the directory at the end of `trail`, with a path that goes on behind it: what
      lookup and the reference make of the rest of the path. */
  lemma OneLink(nodes: Graph, trail: Trail, l: string, rest: seq<string>, depth: nat)
    requires Closed(nodes) && OnGraph(nodes, trail) && rest != [] && l != DOT && l != DOTDOT
    requires FindIn(nodes, Here(trail), l).Some? && nodes[FindIn(nodes, Here(trail), l).value].kind == SymbolicLink
    ensures var link := FindIn(nodes, Here(trail), l).value;
            && FollowFrom(nodes, Here(trail), [l] + rest, depth)
               == Onward(nodes, FollowLink(nodes, link, depth), rest, depth)
            && SplicedFrom(nodes, trail, [l] + rest, depth)
               == var next := SplicedLink(nodes, trail, link, depth);
                  if next.Some? && nodes[Here(next.value)].kind == Directory
                  then SplicedFrom(nodes, next.value, rest, depth) else None
  {
    assert ([l] + rest)[1..] == rest;
  }

  /** A link that is not the only one is not met: neither in its target, from the root or from its own
      directory, nor behind it. */
  ghost predicate OnlyLink(nodes: Graph, dir: nat, ts: seq<string>, rest: seq<string>)
    requires Closed(nodes) && dir < |nodes|
  {
    NoLinkBeforeLast(nodes, ROOT, ts + rest) && NoLinkBeforeLast(nodes, dir, ts + rest)
  }

  /** Lookup through a single link: the plain walk from the root. */
  lemma LookupThroughLink(nodes: Graph, dir: nat, link: nat, rest: seq<string>, depth: nat)
    requires Closed(nodes) && dir < |nodes| && link < |nodes| && nodes[ROOT].kind == Directory && rest != []
    requires depth < MAX_SYMLINKS && nodes[link].target.Some?
    requires OnlyLink(nodes, dir, Components(Normalize(nodes[link].target.value)), rest)
    ensures Onward(nodes, FollowLink(nodes, link, depth), rest, depth)
         == WalkFrom(nodes, ROOT, Components(Normalize(nodes[link].target.value)) + rest)
  {
    var t := Normalize(nodes[link].target.value);
    RootPath(nodes, t, depth + 1);
    OnwardIsWalk(nodes, ROOT, Components(t), rest, depth);
  }

  /** The reference through a single link whose target does not go up: the plain walk from the root
      or from the directory of the link. */
  lemma SplicedThroughLink(nodes: Graph, trail: Trail, link: nat, rest: seq<string>, depth: nat)
    requires Closed(nodes) && OnGraph(nodes, trail) && link < |nodes| && rest != [] && Dotless(rest)
    requires nodes[ROOT].kind == Directory && nodes[Here(trail)].kind == Directory
    requires depth < MAX_SYMLINKS && nodes[link].target.Some?
    requires OnlyLink(nodes, Here(trail), Components(Normalize(nodes[link].target.value)), rest)
    requires DOTDOT !in Components(Normalize(nodes[link].target.value))
    ensures var t := Normalize(nodes[link].target.value); var next := SplicedLink(nodes, trail, link, depth);
            (if next.Some? && nodes[Here(next.value)].kind == Directory
             then End(SplicedFrom(nodes, next.value, rest, depth)) else None)
            == WalkFrom(nodes, if IsAbsolute(t) then ROOT else Here(trail), Components(t) + rest)
  {
    var t := Normalize(nodes[link].target.value);
    var ts, base := Components(t), if IsAbsolute(t) then [ROOT] else trail;
    assert Dotless(ts) by { TargetTidy(nodes[link].target.value); }
    OnwardIsWalk(nodes, Here(base), ts, rest, depth);
    assert End(SplicedFrom(nodes, base, ts, depth + 1)) == FollowFrom(nodes, Here(base), ts, depth + 1) by {
      NoLinkPrefix(nodes, Here(base), ts, rest);
      NoLinkIsAnchored(nodes, Here(base), ts, depth + 1);
      AnchoredIsSpliced(nodes, base, ts, depth + 1);
    }
    var next := SplicedFrom(nodes, base, ts, depth + 1);
    if next.Some? && nodes[Here(next.value)].kind == Directory {
      assert End(SplicedFrom(nodes, next.value, rest, depth)) == FollowFrom(nodes, Here(next.value), rest, depth) by {
        NoLinkIsAnchored(nodes, Here(next.value), rest, depth);
        AnchoredIsSpliced(nodes, next.value, rest, depth);
      }
    }
  }

  /** A target that goes up is never found: the root has no entry `..`. */
  lemma GoingUpFails(nodes: Graph, link: nat, depth: nat)
    requires Closed(nodes) && link < |nodes| && nodes[link].target.Some? && FindIn(nodes, ROOT, DOTDOT) == None
    requires DOTDOT in Components(Normalize(nodes[link].target.value))
    ensures FollowLink(nodes, link, depth) == None
  {
    var t := Normalize(nodes[link].target.value);
    TargetTidy(nodes[link].target.value);
    var j :| 0 <= j < |Components(t)| && Components(t)[j] == DOTDOT;
    assert Components(t)[0] == DOTDOT;
    RootPath(nodes, t, depth + 1);
  }

  /** In a tree without an entry `..` in the root, and with no further link on the way, lookup and
      the reference agree exactly when the link is anchored or both fail. */
  lemma OneLinkAgreesIff(nodes: Graph, trail: Trail, l: string, rest: seq<string>, depth: nat)
    requires Closed(nodes) && Treelike(nodes) && FindIn(nodes, ROOT, DOTDOT) == None
    requires OnGraph(nodes, trail) && nodes[Here(trail)].kind == Directory
    requires rest != [] && Dotless(rest) && l != DOT && l != DOTDOT
    requires FindIn(nodes, Here(trail), l).Some?
    requires var link := FindIn(nodes, Here(trail), l).value;
             && nodes[link].kind == SymbolicLink && nodes[link].target.Some?
             && OnlyLink(nodes, Here(trail), Components(Normalize(nodes[link].target.value)), rest)
    ensures var link := FindIn(nodes, Here(trail), l).value;
            var found := FollowFrom(nodes, Here(trail), [l] + rest, depth);
            var due := End(SplicedFrom(nodes, trail, [l] + rest, depth));
            found == due <==> AnchoredTarget(nodes, Here(trail), link) || (found == None && due == None)
  {
    var link := FindIn(nodes, Here(trail), l).value;
    var t := Normalize(nodes[link].target.value);
    OneLink(nodes, trail, l, rest, depth);
    if depth < MAX_SYMLINKS {
      LookupThroughLink(nodes, Here(trail), link, rest, depth);
      TargetTidy(nodes[link].target.value);
      if DOTDOT in Components(t) {
        GoingUpFails(nodes, link, depth);
      } else {
        SplicedThroughLink(nodes, trail, link, rest, depth);
        var cs := Components(t) + rest;
        if !AnchoredTarget(nodes, Here(trail), link) && WalkFrom(nodes, ROOT, cs).Some?
           && WalkFrom(nodes, ROOT, cs) == WalkFrom(nodes, Here(trail), cs) {
          WalkInjective(nodes, ROOT, Here(trail), cs);
        }
      }
    }
  }

  // ----- the way to the link

  /** All of `pre` are directories, from `cur` on. */
  ghost predicate DirectoriesAlong(nodes: Graph, cur: nat, pre: seq<string>)
    requires Closed(nodes) && cur < |nodes|
    decreases |pre|
  {
    pre != [] ==>
      && FindIn(nodes, cur, pre[0]).Some?
      && nodes[FindIn(nodes, cur, pre[0]).value].kind == Directory
      && DirectoriesAlong(nodes, FindIn(nodes, cur, pre[0]).value, pre[1..])
  }

  ghost function TrailAlong(nodes: Graph, trail: Trail, pre: seq<string>): (r: Trail)
    requires Closed(nodes) && OnGraph(nodes, trail) && DirectoriesAlong(nodes, Here(trail), pre)
    ensures OnGraph(nodes, r)
    decreases |pre|
  {
    if pre == [] then trail
    else TrailAlong(nodes, trail + [FindIn(nodes, Here(trail), pre[0]).value], pre[1..])
  }

  /** Through directories both resolutions go on from the last one. */
  lemma {:induction false} ThroughDirectories(nodes: Graph, trail: Trail, pre: seq<string>, cs: seq<string>, depth: nat)
    requires Closed(nodes) && OnGraph(nodes, trail) && DirectoriesAlong(nodes, Here(trail), pre)
    requires cs != [] && Dotless(pre)
    ensures var at := TrailAlong(nodes, trail, pre);
            && FollowFrom(nodes, Here(trail), pre + cs, depth) == FollowFrom(nodes, Here(at), cs, depth)
            && SplicedFrom(nodes, trail, pre + cs, depth) == SplicedFrom(nodes, at, cs, depth)
    decreases |pre|
  {
    if pre == [] {
      assert pre + cs == cs;
    } else {
      assert (pre + cs)[0] == pre[0] && (pre + cs)[1..] == pre[1..] + cs;
      ThroughDirectories(nodes, trail + [FindIn(nodes, Here(trail), pre[0]).value], pre[1..], cs, depth);
    }
  }

  lemma {:induction false} AlongBelowRoot(nodes: Graph, trail: Trail, pre: seq<string>)
    requires Closed(nodes) && Treelike(nodes) && OnGraph(nodes, trail)
    requires DirectoriesAlong(nodes, Here(trail), pre) && pre != []
    ensures var at := Here(TrailAlong(nodes, trail, pre)); at != ROOT && nodes[at].kind == Directory
    decreases |pre|
  {
    var child := FindIn(nodes, Here(trail), pre[0]).value;
    UniqueParent(nodes, Here(trail), Here(trail), pre[0], pre[0]);
    if |pre| > 1 {
      AlongBelowRoot(nodes, trail + [child], pre[1..]);
    } else {
      assert TrailAlong(nodes, trail + [child], pre[1..]) == trail + [child];
    }
  }

  /** The same for a whole path: directories, one link, and the rest. Lookup resolves it as the
      reference does exactly when the target is absolute, or the link is in the root and its target
      does not go up, or neither finds anything. */
  lemma OneLinkPathIff(nodes: Graph, pre: seq<string>, l: string, rest: seq<string>, depth: nat)
    requires Closed(nodes) && Treelike(nodes) && FindIn(nodes, ROOT, DOTDOT) == None
    requires DirectoriesAlong(nodes, ROOT, pre) && Dotless(pre) && Dotless(rest) && rest != []
    requires l != DOT && l != DOTDOT
    requires FindIn(nodes, Here(TrailAlong(nodes, [ROOT], pre)), l).Some?
    requires var dir := Here(TrailAlong(nodes, [ROOT], pre)); var link := FindIn(nodes, dir, l).value;
             && nodes[link].kind == SymbolicLink && nodes[link].target.Some?
             && OnlyLink(nodes, dir, Components(Normalize(nodes[link].target.value)), rest)
    ensures var link := FindIn(nodes, Here(TrailAlong(nodes, [ROOT], pre)), l).value;
            var t := Normalize(nodes[link].target.value);
            var found := FollowFrom(nodes, ROOT, pre + ([l] + rest), depth);
            var due := End(SplicedFrom(nodes, [ROOT], pre + ([l] + rest), depth));
            found == due <==>
              IsAbsolute(t) || (pre == [] && DOTDOT !in Components(t)) || (found == None && due == None)
  {
    var at := TrailAlong(nodes, [ROOT], pre);
    ThroughDirectories(nodes, [ROOT], pre, [l] + rest, depth);
    if pre != [] {
      AlongBelowRoot(nodes, [ROOT], pre);
    }
    OneLinkAgreesIff(nodes, at, l, rest, depth);
  }

  // ----- inputs on which they differ

  lemma SplicedName(nodes: Graph, trail: Trail, x: string, depth: nat)
    requires Closed(nodes) && OnGraph(nodes, trail) && x != DOT && x != DOTDOT
    ensures End(SplicedFrom(nodes, trail, [x], depth)) == FindIn(nodes, Here(trail), x)
  {
  }

  /** The entry `x` of the node `n`, if there is such a directory. */
  function Beyond(nodes: Graph, n: Option<nat>, x: string): Option<nat>
    requires Closed(nodes) && (n.Some? ==> n.value < |nodes|)
  {
    if n.Some? && nodes[n.value].kind == Directory then FindIn(nodes, n.value, x) else None
  }

  /** A link with the relative target `e`: lookup goes on from the entry `e` of the root, the
      reference from the entry `e` of the link's own directory. */
  lemma RelativeLink(nodes: Graph, trail: Trail, l: string, e: string, x: string, link: nat, depth: nat)
    requires Closed(nodes) && OnGraph(nodes, trail) && FindIn(nodes, Here(trail), l) == Some(link)
    requires nodes[link].kind == SymbolicLink && nodes[link].target == Some(e) && depth < MAX_SYMLINKS
    requires IsName(e) && e != DOT && e != DOTDOT && l != DOT && l != DOTDOT && x != DOT && x != DOTDOT
    ensures FollowFrom(nodes, Here(trail), [l] + [x], depth) == Beyond(nodes, FindIn(nodes, ROOT, e), x)
    ensures End(SplicedFrom(nodes, trail, [l] + [x], depth)) == Beyond(nodes, FindIn(nodes, Here(trail), e), x)
  {
    RelativeName(e);
    OneLink(nodes, trail, l, [x], depth);
    OneName(nodes, ROOT, e, depth + 1);
    SplicedName(nodes, trail, e, depth + 1);
    var at, next := FollowLink(nodes, link, depth), SplicedLink(nodes, trail, link, depth);
    assert at == FindIn(nodes, ROOT, e) && End(next) == FindIn(nodes, Here(trail), e);
    if at.Some? {
      OneName(nodes, at.value, x, depth);
    }
    if next.Some? {
      SplicedName(nodes, next.value, x, depth);
    }
  }

  /** `/d/l` with the target `e`, where `/d/e/x` exists: the reference finds it, lookup does not. */
  lemma RelativeLinkExample(d: string, l: string, e: string, x: string, depth: nat)
    requires IsName(e) && Dotless([d, l, e, x]) && d != e && l != e && depth < MAX_SYMLINKS
    ensures var nodes := RelativeGraph(d, l, e, x);
            && Closed(nodes)
            && End(SplicedFrom(nodes, [ROOT], [d] + ([l] + [x]), depth)) == Some(4)
            && FollowFrom(nodes, ROOT, [d] + ([l] + [x]), depth) == None
  {
    var nodes := RelativeGraph(d, l, e, x);
    assert d in [d, l, e, x] && l in [d, l, e, x] && e in [d, l, e, x] && x in [d, l, e, x];
    RelativeGraphEntries(d, l, e, x);
    RelativeDirectory(nodes, d, 1, [l] + [x], depth);
    RelativeLink(nodes, [ROOT] + [1], l, e, x, 2, depth);
  }

  lemma RelativeGraphEntries(d: string, l: string, e: string, x: string)
    requires d != e && l != e
    ensures var nodes := RelativeGraph(d, l, e, x);
            && Closed(nodes) && FindIn(nodes, ROOT, d) == Some(1) && FindIn(nodes, ROOT, e) == None
            && FindIn(nodes, 1, l) == Some(2) && FindIn(nodes, 1, e) == Some(3) && FindIn(nodes, 3, x) == Some(4)
  {
    var nodes := RelativeGraph(d, l, e, x);
    FindAt(nodes, [1], 0, d);
    FindAt(nodes, [2, 3], 0, l);
    FindAt(nodes, [2, 3], 1, e);
    FindAt(nodes, [4], 0, x);
  }

  /** Through one directory. */
  lemma RelativeDirectory(nodes: Graph, d: string, dir: nat, cs: seq<string>, depth: nat)
    requires Closed(nodes) && FindIn(nodes, ROOT, d) == Some(dir) && nodes[dir].kind == Directory
    requires cs != [] && d != DOT && d != DOTDOT
    ensures FollowFrom(nodes, ROOT, [d] + cs, depth) == FollowFrom(nodes, dir, cs, depth)
    ensures SplicedFrom(nodes, [ROOT], [d] + cs, depth) == SplicedFrom(nodes, [ROOT] + [dir], cs, depth)
  {
    assert [d][1..] == [];
    ThroughDirectories(nodes, [ROOT], [d], cs, depth);
  }

  function RelativeGraph(d: string, l: string, e: string, x: string): Graph {
    [ Node("/", Directory, None, None, [1], 1),
      Node(d, Directory, None, None, [2, 3], 2),
      Node(l, SymbolicLink, None, Some(e), [], 3),
      Node(e, Directory, None, None, [4], 4),
      Node(x, RegularFile, None, None, [], 5) ]
  }

  /** `/l` with the target `../d`, where `/d/x` exists: the reference stops at the root and finds
      it, lookup takes `..` for an entry and does not. */
  lemma UpwardLinkExample(l: string, d: string, x: string, depth: nat)
    requires IsName(d) && Dotless([l, d, x]) && l != d && depth < MAX_SYMLINKS
    ensures var nodes := UpwardGraph(l, d, x);
            && Closed(nodes)
            && End(SplicedFrom(nodes, [ROOT], [l] + [x], depth)) == Some(3)
            && FollowFrom(nodes, ROOT, [l] + [x], depth) == None
  {
    assert l in [l, d, x] && d in [l, d, x];
    UpwardGraphEntries(l, d, x);
    UpwardLink(UpwardGraph(l, d, x), l, d, x, 1, depth);
  }

  lemma UpwardGraphEntries(l: string, d: string, x: string)
    requires l != d && l != DOTDOT && d != DOTDOT
    ensures var nodes := UpwardGraph(l, d, x);
            && Closed(nodes) && FindIn(nodes, ROOT, l) == Some(1) && FindIn(nodes, ROOT, d) == Some(2)
            && FindIn(nodes, ROOT, DOTDOT) == None && FindIn(nodes, 2, x) == Some(3)
  {
    var nodes := UpwardGraph(l, d, x);
    FindAt(nodes, [1, 2], 0, l);
    FindAt(nodes, [1, 2], 1, d);
    FindAt(nodes, [3], 0, x);
    assert [1, 2][1..] == [2] && [2][1..] == [];
  }

  /** A link of the root with the target `../d`. */
  lemma UpwardLink(nodes: Graph, l: string, d: string, x: string, link: nat, depth: nat)
    requires Closed(nodes) && FindIn(nodes, ROOT, l) == Some(link) && FindIn(nodes, ROOT, DOTDOT) == None
    requires nodes[link].kind == SymbolicLink && nodes[link].target == Some(Join([DOTDOT, d]))
    requires IsName(d) && Dotless([l, d, x]) && depth < MAX_SYMLINKS
    ensures FollowFrom(nodes, ROOT, [l] + [x], depth) == None
    ensures End(SplicedFrom(nodes, [ROOT], [l] + [x], depth)) == Beyond(nodes, FindIn(nodes, ROOT, d), x)
  {
    assert l in [l, d, x] && d in [l, d, x] && x in [l, d, x];
    UpwardTarget(d);
    OneLink(nodes, [ROOT], l, [x], depth);
    GoingUpFails(nodes, link, depth);
    assert [DOTDOT, d][1..] == [d];
    SplicedName(nodes, [ROOT], d, depth + 1);
    var next := SplicedLink(nodes, [ROOT], link, depth);
    assert End(next) == FindIn(nodes, ROOT, d);
    if next.Some? {
      SplicedName(nodes, next.value, x, depth);
    }
  }

  function UpwardGraph(l: string, d: string, x: string): Graph {
    [ Node("/", Directory, None, None, [1, 2], 1),
      Node(l, SymbolicLink, None, Some(Join([DOTDOT, d])), [], 2),
      Node(d, Directory, None, None, [3], 3),
      Node(x, RegularFile, None, None, [], 4) ]
  }

  /** With further links the two may find the same node in different ways: `/d/l` leads to `e`, and
      both `/e/m` and `/d/e/m` lead to `/q`. */
  lemma SameByChance(nodes: Graph, trail: Trail, l: string, e: string, m: string, q: string, x: string, depth: nat,
                     link: nat, there: nat, here: nat, m1: nat, m2: nat, dir: nat)
    requires Closed(nodes) && OnGraph(nodes, trail) && depth < MAX_SYMLINKS
    requires IsName(e) && IsName(q) && Dotless([l, e, m, q, x])
    requires FindIn(nodes, Here(trail), l) == Some(link) && nodes[link].kind == SymbolicLink
    requires nodes[link].target == Some(e)
    requires FindIn(nodes, ROOT, e) == Some(there) && nodes[there].kind == Directory
    requires FindIn(nodes, Here(trail), e) == Some(here) && nodes[here].kind == Directory
    requires FindIn(nodes, there, m) == Some(m1) && nodes[m1].kind == SymbolicLink && nodes[m1].target == Some("/" + q)
    requires FindIn(nodes, here, m) == Some(m2) && nodes[m2].kind == SymbolicLink && nodes[m2].target == Some("/" + q)
    requires FindIn(nodes, ROOT, q) == Some(dir) && nodes[dir].kind == Directory
    ensures FollowFrom(nodes, Here(trail), [l] + ([m] + [x]), depth) == FindIn(nodes, dir, x)
    ensures End(SplicedFrom(nodes, trail, [l] + ([m] + [x]), depth)) == FindIn(nodes, dir, x)
  {
    var all := [l, e, m, q, x];
    assert l in all && e in all && m in all && q in all && x in all;
    RelativeName(e);
    OneLink(nodes, trail, l, [m] + [x], depth);
    OneName(nodes, ROOT, e, depth + 1);
    assert FollowLink(nodes, link, depth) == Some(there);
    assert SplicedLink(nodes, trail, link, depth) == Some(trail + [here]);
    AbsoluteLink(nodes, [there], m, q, x, m1, dir, depth);
    AbsoluteLink(nodes, trail + [here], m, q, x, m2, dir, depth);
  }

  lemma AbsoluteLink(nodes: Graph, trail: Trail, m: string, q: string, x: string, link: nat, dir: nat, depth: nat)
    requires Closed(nodes) && OnGraph(nodes, trail) && depth < MAX_SYMLINKS && IsName(q) && Dotless([m, q, x])
    requires FindIn(nodes, Here(trail), m) == Some(link) && nodes[link].kind == SymbolicLink
    requires nodes[link].target == Some("/" + q)
    requires FindIn(nodes, ROOT, q) == Some(dir) && nodes[dir].kind == Directory
    ensures FollowFrom(nodes, Here(trail), [m] + [x], depth) == FindIn(nodes, dir, x)
    ensures End(SplicedFrom(nodes, trail, [m] + [x], depth)) == FindIn(nodes, dir, x)
  {
    assert m in [m, q, x] && q in [m, q, x] && x in [m, q, x];
    SingleName(q);
    OneLink(nodes, trail, m, [x], depth);
    OneName(nodes, ROOT, q, depth + 1);
    OneName(nodes, dir, x, depth);
    assert SplicedLink(nodes, trail, link, depth) == Some([ROOT] + [dir]);
    SplicedName(nodes, [ROOT] + [dir], x, depth);
  }

  lemma UpwardTarget(d: string)
    requires IsName(d) && d != DOT && d != DOTDOT
    ensures var t := Join([DOTDOT, d]); Components(t) == [DOTDOT, d] && Normalize(t) == t && !IsAbsolute(t)
  {
    var cs := [DOTDOT, d];
    assert Render(false, cs) == Join(cs);
    ComponentsOfRender(false, cs);
    JoinStart(cs);
    NormalIsFixed(Join(cs));
  }

  lemma RelativeName(b: string)
    requires IsName(b) && b != DOT && b != DOTDOT
    ensures Components(b) == [b] && Normalize(b) == b && !IsAbsolute(b)
  {
    assert b + "" == b;
    ComponentsName(b, "");
    NoComponents();
    assert Render(false, [b]) == b;
    NormalIsFixed(b);
  }
}
