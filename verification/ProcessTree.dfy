/** The process tree (kernel/src/process/task.rs): every task carries a list head for its
    children and a node that links it among its siblings.
  */
module ProcessTree {
  import opened Basics
  import opened Sequences
  import opened Lists

  type Task = nat

  /** The address of a list field of a task. Subtracting the offset of the field, as the kernel
      does to get from the field to the task, is taking `task`. */
  datatype Node = ChildrenOf(task: Task) | SiblingOf(task: Task)

  function Siblings(kids: seq<Task>): (r: seq<Node>)
    ensures |r| == |kids| && forall i | 0 <= i < |r| :: r[i] == SiblingOf(kids[i])
  {
    if kids == [] then [] else Siblings(kids[..|kids| - 1]) + [SiblingOf(kids[|kids| - 1])]
  }

  /** The circle of a task's children, beginning with the list head. */
  function Circle(t: Task, kids: seq<Task>): seq<Node> {
    [ChildrenOf(t)] + Siblings(kids)
  }

  lemma CircleWithout(t: Task, kids: seq<Task>, i: nat)
    requires i < |kids|
    ensures Without(Circle(t, kids), i + 1) == Circle(t, Without(kids, i))
  {
  }

  // ----- the tree as values

  type Kids = map<Task, seq<Task>>
  type Parents = map<Task, Task>

  /** All nodes of `r` belong to tasks of the tree. */
  ghost predicate Known(kids: Kids, r: seq<Node>) {
    forall i | 0 <= i < |r| :: r[i].task in kids
  }

  /** Task `t` is the parent of all of `l`. */
  ghost predicate ParentOfAll(parent: Parents, t: Task, l: seq<Task>) {
    forall i | 0 <= i < |l| :: l[i] in parent && parent[l[i]] == t
  }

  /** Task `c` is among the children of its parent. */
  ghost predicate HasParent(kids: Kids, parent: Parents, c: Task) {
    c in parent && c in kids && parent[c] in kids && c in kids[parent[c]]
  }

  ghost predicate RingsKnown(rings: set<seq<Node>>, kids: Kids) {
    forall r {:trigger Known(kids, r)} | r in rings :: Known(kids, r)
  }

  /** Every task has its circle of children among the lists. */
  ghost predicate HasCircles(rings: set<seq<Node>>, kids: Kids) {
    forall t {:trigger Circle(t, kids[t])} | t in kids :: Circle(t, kids[t]) in rings
  }

  /** A task without a parent is alone in a circle of its own. */
  ghost predicate HasLoners(rings: set<seq<Node>>, kids: Kids, parent: Parents) {
    forall t {:trigger SiblingOf(t)} | t in kids && t !in parent :: [SiblingOf(t)] in rings
  }

  /** Parents and children name each other. */
  ghost predicate Related(kids: Kids, parent: Parents) {
    && (forall t {:trigger ParentOfAll(parent, t, kids[t])} | t in kids :: ParentOfAll(parent, t, kids[t]))
    && (forall c {:trigger HasParent(kids, parent, c)} | c in parent :: HasParent(kids, parent, c))
  }

  ghost predicate Woven(rings: set<seq<Node>>, kids: Kids, parent: Parents) {
    && RingsKnown(rings, kids)
    && HasCircles(rings, kids)
    && HasLoners(rings, kids, parent)
    && Related(kids, parent)
  }

  lemma NewWoven(rings: set<seq<Node>>, kids: Kids, parent: Parents, t: Task)
    requires Woven(rings, kids, parent) && t !in kids
    ensures forall r | r in rings :: ChildrenOf(t) !in r && SiblingOf(t) !in r
    ensures Woven(rings + {[ChildrenOf(t)]} + {[SiblingOf(t)]}, kids[t := []], parent)
  {
    var rings', kids' := rings + {[ChildrenOf(t)]} + {[SiblingOf(t)]}, kids[t := []];
    forall r | r in rings
      ensures ChildrenOf(t) !in r && SiblingOf(t) !in r && Known(kids', r)
    {
      assert Known(kids, r);
    }
    forall u | u in kids'
      ensures Circle(u, kids'[u]) in rings' && ParentOfAll(parent, u, kids'[u])
    {
      if u == t {
        assert Circle(t, []) == [ChildrenOf(t)];
      } else {
        assert Circle(u, kids[u]) in rings && ParentOfAll(parent, u, kids[u]);
      }
    }
    forall c | c in parent
      ensures HasParent(kids', parent, c)
    {
      assert HasParent(kids, parent, c);
    }
  }

  /** The circles of two tasks differ, and differ from that of a loner. */
  lemma CirclesDiffer(t: Task, k: seq<Task>, u: Task, l: seq<Task>, c: Task)
    ensures Circle(t, k) != [SiblingOf(c)]
    ensures t != u ==> Circle(t, k) != Circle(u, l)
  {
    assert Circle(t, k)[0] == ChildrenOf(t) && Circle(u, l)[0] == ChildrenOf(u);
  }

  /** Replacing the circle of `p` and a set of loners leaves the circles of the other tasks. */
  lemma CirclesAfter(rings: set<seq<Node>>, rings': set<seq<Node>>, kids: Kids, p: Task, l: seq<Task>, c: Task)
    requires HasCircles(rings, kids) && p in kids
    requires Circle(p, l) in rings' && rings - {Circle(p, kids[p]), [SiblingOf(c)]} <= rings'
    ensures HasCircles(rings', kids[p := l])
  {
    var kids' := kids[p := l];
    forall t | t in kids'
      ensures Circle(t, kids'[t]) in rings'
    {
      if t != p {
        assert Circle(t, kids[t]) in rings;
        CirclesDiffer(t, kids[t], p, kids[p], c);
      }
    }
  }

  /** The loners other than `c` remain. */
  lemma LonersAfter(rings: set<seq<Node>>, rings': set<seq<Node>>, kids: Kids, parent: Parents,
                    p: Task, c: Task, t: Task)
    requires HasLoners(rings, kids, parent) && t in kids && t !in parent && t != c && p in kids
    requires rings - {Circle(p, kids[p]), [SiblingOf(c)]} <= rings'
    ensures [SiblingOf(t)] in rings'
  {
    assert [SiblingOf(t)] in rings;
    assert [SiblingOf(t)][0] != [SiblingOf(c)][0];
    CirclesDiffer(p, kids[p], p, kids[p], t);
  }

  lemma AddKnown(rings: set<seq<Node>>, kids: Kids, p: Task, c: Task)
    requires RingsKnown(rings, kids) && p in kids && c in kids && Circle(p, kids[p]) in rings
    ensures RingsKnown(rings - {Circle(p, kids[p]), [SiblingOf(c)]} + {Circle(p, kids[p]) + [SiblingOf(c)]},
                       kids[p := kids[p] + [c]])
  {
    var r, kids' := Circle(p, kids[p]), kids[p := kids[p] + [c]];
    assert Known(kids, r);
    assert Known(kids', r + [SiblingOf(c)]);
    forall s | s in rings
      ensures Known(kids', s)
    {
      assert Known(kids, s);
    }
  }

  lemma AddRelated(kids: Kids, parent: Parents, p: Task, c: Task)
    requires Related(kids, parent) && p in kids && c in kids && c !in parent
    ensures Related(kids[p := kids[p] + [c]], parent[c := p])
  {
    var kids', parent' := kids[p := kids[p] + [c]], parent[c := p];
    forall t | t in kids'
      ensures ParentOfAll(parent', t, kids'[t])
    {
      assert ParentOfAll(parent, t, kids[t]);
    }
    forall x | x in parent'
      ensures HasParent(kids', parent', x)
    {
      assert c in kids'[p];
      assert x != c ==> HasParent(kids, parent, x);
    }
  }

  lemma AddWoven(rings: set<seq<Node>>, kids: Kids, parent: Parents, p: Task, c: Task)
    requires Woven(rings, kids, parent) && p in kids && c in kids && c !in parent
    ensures Circle(p, kids[p]) in rings && [SiblingOf(c)] in rings && Circle(p, kids[p]) != [SiblingOf(c)]
    ensures Woven(rings - {Circle(p, kids[p]), [SiblingOf(c)]} + {Circle(p, kids[p]) + [SiblingOf(c)]},
                  kids[p := kids[p] + [c]], parent[c := p])
  {
    var r, l := Circle(p, kids[p]), kids[p] + [c];
    var rings' := rings - {r, [SiblingOf(c)]} + {r + [SiblingOf(c)]};
    assert Circle(p, l) == r + [SiblingOf(c)] by {
      assert l[..|l| - 1] == kids[p];
    }
    CirclesDiffer(p, kids[p], p, kids[p], c);
    AddKnown(rings, kids, p, c);
    CirclesAfter(rings, rings', kids, p, l, c);
    AddRelated(kids, parent, p, c);
    forall t | t in kids[p := l] && t !in parent[c := p]
      ensures [SiblingOf(t)] in rings'
    {
      LonersAfter(rings, rings', kids, parent, p, c, t);
    }
  }

  lemma RemoveKnown(rings: set<seq<Node>>, kids: Kids, p: Task, i: nat)
    requires RingsKnown(rings, kids) && p in kids && i < |kids[p]| && Circle(p, kids[p]) in rings
    ensures RingsKnown(rings - {Circle(p, kids[p])} + {Circle(p, Without(kids[p], i)), [SiblingOf(kids[p][i])]},
                       kids[p := Without(kids[p], i)])
  {
    var k, l := kids[p], Without(kids[p], i);
    var r, kids' := Circle(p, k), kids[p := l];
    forall j | 0 <= j < |k|
      ensures k[j] in kids
    {
      assert Known(kids, r) && r[j + 1] == SiblingOf(k[j]);
    }
    WithoutAt(k, i);
    assert Known(kids', Circle(p, l)) && Known(kids', [SiblingOf(k[i])]);
    forall s | s in rings
      ensures Known(kids', s)
    {
      assert Known(kids, s);
    }
  }

  lemma RemoveRelated(kids: Kids, parent: Parents, p: Task, i: nat)
    requires Related(kids, parent) && p in kids && i < |kids[p]|
    requires forall x, y | 0 <= x < y < |kids[p]| :: kids[p][x] != kids[p][y]
    ensures Related(kids[p := Without(kids[p], i)], parent - {kids[p][i]})
  {
    var c, l := kids[p][i], Without(kids[p], i);
    var kids', parent' := kids[p := l], parent - {c};
    assert ParentOfAll(parent, p, kids[p]);
    forall x
      ensures x in l <==> x in kids[p] && x != c
    {
      WithoutMembers(kids[p], i, x);
    }
    forall t | t in kids'
      ensures ParentOfAll(parent', t, kids'[t])
    {
      assert ParentOfAll(parent, t, kids[t]);
      assert forall j | 0 <= j < |l| :: l[j] in l;
    }
    forall x | x in parent'
      ensures HasParent(kids', parent', x)
    {
      assert HasParent(kids, parent, x);
    }
  }

  lemma RemoveWoven(rings: set<seq<Node>>, kids: Kids, parent: Parents, p: Task, c: Task, i: nat)
    requires Woven(rings, kids, parent) && p in kids && i < |kids[p]| && kids[p][i] == c
    requires forall x, y | 0 <= x < y < |kids[p]| :: kids[p][x] != kids[p][y]
    ensures Circle(p, kids[p]) in rings && c in parent && parent[c] == p
    ensures Woven(rings - {Circle(p, kids[p])} + {Circle(p, Without(kids[p], i)), [SiblingOf(c)]},
                  kids[p := Without(kids[p], i)], parent - {c})
  {
    var l := Without(kids[p], i);
    var rings' := rings - {Circle(p, kids[p])} + {Circle(p, l), [SiblingOf(c)]};
    assert Circle(p, kids[p]) in rings;
    assert ParentOfAll(parent, p, kids[p]);
    RemoveKnown(rings, kids, p, i);
    CirclesAfter(rings, rings', kids, p, l, c);
    RemoveRelated(kids, parent, p, i);
    forall t | t in kids[p := l] && t !in parent - {c}
      ensures [SiblingOf(t)] in rings'
    {
      if t != c {
        LonersAfter(rings, rings', kids, parent, p, c, t);
      }
    }
  }

  /** Distinct nodes mean distinct children. */
  lemma KidsDistinct(next: map<Node, Node>, prev: map<Node, Node>, t: Task, l: seq<Task>)
    requires Ring(next, prev, Circle(t, l))
    ensures forall x, y | 0 <= x < y < |l| :: l[x] != l[y]
  {
    forall x, y | 0 <= x < y < |l|
      ensures l[x] != l[y]
    {
      assert Circle(t, l)[x + 1] != Circle(t, l)[y + 1];
    }
  }

  // ----- the tree in memory

  class Tree {
    const lists: ListMemory<Node>
    var parent: Parents
    var parentHead: map<Task, Node>
    /** The children of every task, in the order they were added. */
    ghost var kids: Kids

    ghost predicate Valid()
      reads this, lists
    {
      && lists.Valid()
      && Woven(lists.rings, kids, parent)
      && parentHead.Keys == parent.Keys
      && (forall c | c in parentHead :: parentHead[c] == ChildrenOf(parent[c]))
    }

    constructor ()
      ensures Valid() && kids == map[] && fresh(lists)
    {
      lists := new ListMemory<Node>();
      parent, parentHead, kids := map[], map[], map[];
    }

    /** A new task, with both list fields initialized. */
    method NewTask(t: Task)
      requires Valid() && t !in kids
      modifies this, lists
      ensures Valid() && kids == old(kids)[t := []]
    {
      NewWoven(lists.rings, kids, parent, t);
      lists.Init(ChildrenOf(t));
      lists.Init(SiblingOf(t));
      kids := kids[t := []];
    }

    /** `add_child`: a task in no list of children becomes the last child of `p`. */
    method AddChild(p: Task, c: Task)
      requires Valid() && p in kids && c in kids && c !in parent
      modifies this, lists
      ensures Valid() && kids == old(kids)[p := old(kids)[p] + [c]]
    {
      ghost var r := Circle(p, kids[p]);
      AddWoven(lists.rings, kids, parent, p, c);
      parent := parent[c := p];
      parentHead := parentHead[c := ChildrenOf(p)];
      lists.AddTail(SiblingOf(c), ChildrenOf(p), r, 0);
      assert InsertedAt(r, |r| - 1, SiblingOf(c)) == r + [SiblingOf(c)];
      kids := kids[p := kids[p] + [c]];
    }

    /** `remove_child`: the child leaves the list of its parent `p`. */
    method RemoveChild(p: Task, c: Task, ghost i: nat)
      requires Valid() && p in kids && i < |kids[p]| && kids[p][i] == c
      modifies this, lists
      ensures Valid() && kids == old(kids)[p := Without(old(kids)[p], i)]
      ensures c !in parent
    {
      ghost var r := Circle(p, kids[p]);
      assert r in lists.rings;
      KidsDistinct(lists.next, lists.prev, p, kids[p]);
      RemoveWoven(lists.rings, kids, parent, p, c, i);
      CircleWithout(p, kids[p], i);
      lists.Del(SiblingOf(c), r, i + 1);
      lists.Init(SiblingOf(c));
      parent := parent - {c};
      parentHead := parentHead - {c};
      kids := kids[p := Without(kids[p], i)];
    }

    /** `first_child`. */
    method FirstChild(t: Task) returns (r: Option<Task>)
      requires Valid() && t in kids
      ensures r == if kids[t] == [] then None else Some(kids[t][0])
    {
      ghost var l := Circle(t, kids[t]);
      assert l in lists.rings && Ring(lists.next, lists.prev, l);
      assert lists.next[l[0]] == l[Succ(|l|, 0)];
      var empty := lists.IsEmpty(ChildrenOf(t), l);
      if empty {
        return None;
      }
      return Some(lists.next[ChildrenOf(t)].task);
    }

    /** The children of the parent of `c`, `c` among them. */
    ghost function Family(c: Task): (l: seq<Task>)
      requires Valid() && c in parent
      reads this, lists
      ensures c in l && parent[c] in kids && l == kids[parent[c]]
    {
      assert HasParent(kids, parent, c);
      kids[parent[c]]
    }

    /** `next_sibling`: none for a task without a parent; else, for child `i` of its parent, the
        child after it. */
    method NextSibling(c: Task, ghost i: nat) returns (r: Option<Task>)
      requires Valid() && c in kids
      requires c in parent ==> i < |Family(c)| && Family(c)[i] == c
      ensures c !in parent ==> r == None
      ensures c in parent ==> r == if i + 1 == |Family(c)| then None else Some(Family(c)[i + 1])
    {
      if c !in parentHead {
        return None;
      }
      ghost var l := Circle(parent[c], Family(c));
      assert l in lists.rings && Ring(lists.next, lists.prev, l);
      assert l[i + 1] == SiblingOf(c) && lists.next[l[i + 1]] == l[Succ(|l|, i + 1)];
      var n := lists.next[SiblingOf(c)];
      if n == parentHead[c] {
        return None;
      }
      return Some(n.task);
    }

    /** Walking from the first child along the siblings visits every child once, in the order
        they were added, and stops. */
    method Walk(t: Task) returns (visited: seq<Task>)
      requires Valid() && t in kids
      ensures visited == kids[t]
    {
      visited := [];
      var cur := FirstChild(t);
      while cur.Some?
        invariant |visited| <= |kids[t]| && visited == kids[t][..|visited|]
        invariant cur == if |visited| == |kids[t]| then None else Some(kids[t][|visited|])
        decreases |kids[t]| - |visited|
      {
        var c := cur.value;
        assert ParentOfAll(parent, t, kids[t]);
        assert HasParent(kids, parent, c);
        cur := NextSibling(c, |visited|);
        visited := visited + [c];
      }
    }
  }
}
