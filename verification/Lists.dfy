/** The intrusive circular doubly linked list (kernel/src/list.rs). Nodes are raw pointers, so
    memory is a pair of maps from node to node; a node outside them is not initialized.
  */
module Lists {
  import opened Sequences

  function Succ(n: nat, i: nat): nat
    requires i < n
  {
    if i + 1 < n then i + 1 else 0
  }

  function Pred(n: nat, i: nat): nat
    requires i < n
  {
    if i == 0 then n - 1 else i - 1
  }

  /** The nodes of `r`, in this order, form one circle; `r[0]` is the list head. */
  ghost predicate Ring<T>(next: map<T, T>, prev: map<T, T>, r: seq<T>) {
    && |r| > 0
    && (forall i, j | 0 <= i < j < |r| :: r[i] != r[j])
    && (forall i | 0 <= i < |r| :: r[i] in next && r[i] in prev)
    && (forall i {:trigger Succ(|r|, i)} | 0 <= i < |r| :: next[r[i]] == r[Succ(|r|, i)])
    && (forall i {:trigger Pred(|r|, i)} | 0 <= i < |r| :: prev[r[i]] == r[Pred(|r|, i)])
  }

  ghost predicate Disjoint<T>(r: seq<T>, s: seq<T>) {
    forall x | x in r :: x !in s
  }

  /** A circle is untouched by stores to nodes outside it. */
  lemma RingFrame<T>(next: map<T, T>, prev: map<T, T>, next': map<T, T>, prev': map<T, T>, r: seq<T>)
    requires Ring(next, prev, r)
    requires forall x | x in r :: x in next' && next'[x] == next[x] && x in prev' && prev'[x] == prev[x]
    ensures Ring(next', prev', r)
  {
    assert forall i | 0 <= i < |r| :: r[i] in r;
    forall i | 0 <= i < |r|
      ensures next'[r[i]] == r[Succ(|r|, i)] && prev'[r[i]] == r[Pred(|r|, i)]
    {
    }
  }

  /** `node` behind position `i`. */
  function InsertedAt<T>(r: seq<T>, i: nat, node: T): (r': seq<T>)
    requires i < |r|
    ensures |r'| == |r| + 1
    ensures forall k | 0 <= k < |r'| :: r'[k] == if k <= i then r[k] else if k == i + 1 then node else r[k - 1]
  {
    r[..i + 1] + [node] + r[i + 1..]
  }

  /** The four stores of `add` behind position `i`, which are also those of `add_tail` in front of
      the position after it. */
  lemma InsertRing<T>(next: map<T, T>, prev: map<T, T>, r: seq<T>, node: T, i: nat)
    requires Ring(next, prev, r) && node !in r && i < |r|
    ensures r[i] in next && next[r[i]] == r[Succ(|r|, i)]
    ensures var n := next[r[i]];
            Ring(next[node := n][r[i] := node], prev[node := r[i]][n := node], InsertedAt(r, i, node))
  {
    Neighbours(next, prev, r, i);
    var n := next[r[i]];
    var next', prev', r' := next[node := n][r[i] := node], prev[node := r[i]][n := node], InsertedAt(r, i, node);
    forall k | 0 <= k < |r'|
      ensures r'[k] in next' && next'[r'[k]] == r'[Succ(|r'|, k)] && r'[k] in prev' && prev'[r'[k]] == r'[Pred(|r'|, k)]
    {
      InsertNext(next, prev, r, node, i, k);
      InsertPrev(next, prev, r, node, i, k);
    }
    InsertDistinct(r, node, i);
  }

  lemma InsertBefore<T>(next: map<T, T>, prev: map<T, T>, r: seq<T>, node: T, i: nat)
    requires Ring(next, prev, r) && node !in r && i < |r|
    ensures r[i] in prev && prev[r[i]] in r
    ensures var p := prev[r[i]];
            Ring(next[node := r[i]][p := node], prev[node := p][r[i] := node], InsertedAt(r, Pred(|r|, i), node))
  {
    Neighbours(next, prev, r, i);
    InsertRing(next, prev, r, node, Pred(|r|, i));
    assert Succ(|r|, Pred(|r|, i)) == i;
  }

  lemma InsertDistinct<T>(r: seq<T>, node: T, i: nat)
    requires i < |r| && node !in r && Distinct(r)
    ensures Distinct(InsertedAt(r, i, node))
  {
    var r' := InsertedAt(r, i, node);
    forall x, y | 0 <= x < y < |r'|
      ensures r'[x] != r'[y]
    {
      assert x != i + 1 ==> r'[x] in r;
      assert y != i + 1 ==> r'[y] in r;
    }
  }

  /** The successor of the node at position `k` after the insertion. */
  lemma InsertNext<T>(next: map<T, T>, prev: map<T, T>, r: seq<T>, node: T, i: nat, k: nat)
    requires Ring(next, prev, r) && node !in r && i < |r| && k <= |r| && r[i] in next
    ensures var next', r' := next[node := next[r[i]]][r[i] := node], InsertedAt(r, i, node);
            r'[k] in next' && next'[r'[k]] == r'[Succ(|r'|, k)]
  {
    Neighbours(next, prev, r, i);
    if k != i + 1 {
      var o := if k <= i then k else k - 1;
      assert r[o] in r;
      Neighbours(next, prev, r, o);
      assert r[o] == r[i] <==> o == i;
    }
  }

  /** And its predecessor. */
  lemma InsertPrev<T>(next: map<T, T>, prev: map<T, T>, r: seq<T>, node: T, i: nat, k: nat)
    requires Ring(next, prev, r) && node !in r && i < |r| && k <= |r| && r[i] in next
    ensures var prev', r' := prev[node := r[i]][next[r[i]] := node], InsertedAt(r, i, node);
            r'[k] in prev' && prev'[r'[k]] == r'[Pred(|r'|, k)]
  {
    Neighbours(next, prev, r, i);
    if k != i + 1 {
      var o := if k <= i then k else k - 1;
      assert r[o] in r;
      Neighbours(next, prev, r, o);
      assert r[o] == next[r[i]] <==> o == Succ(|r|, i);
    }
  }

  /** Neighbours by position. */
  lemma Neighbours<T>(next: map<T, T>, prev: map<T, T>, r: seq<T>, o: nat)
    requires Ring(next, prev, r) && o < |r|
    ensures r[o] in next && next[r[o]] == r[Succ(|r|, o)]
    ensures r[o] in prev && prev[r[o]] == r[Pred(|r|, o)]
  {
  }

  /** Neighbours of position `j` once position `i` of `n` is gone. */
  lemma NeighboursAfterRemoval(n: nat, i: nat, j: nat)
    requires i < n && j < n - 1
    ensures var o := Origin(i, j);
            && o < n && o != i
            && Origin(i, Succ(n - 1, j)) == (if Succ(n, o) == i then Succ(n, i) else Succ(n, o))
            && Origin(i, Pred(n - 1, j)) == (if Pred(n, o) == i then Pred(n, i) else Pred(n, o))
            && (Succ(n, o) == i <==> o == Pred(n, i))
            && (Pred(n, o) == i <==> o == Succ(n, i))
  {
  }

  /** The first two stores of `del`, which close the gap. */
  lemma GapRing<T>(next: map<T, T>, prev: map<T, T>, r: seq<T>, i: nat)
    requires Ring(next, prev, r) && i < |r| && |r| > 1
    ensures r[i] in next && r[i] in prev
    ensures var n, p := next[r[i]], prev[r[i]]; Ring(next[p := n], prev[n := p], Without(r, i))
  {
    Neighbours(next, prev, r, i);
    var n, p := next[r[i]], prev[r[i]];
    var next', prev', r' := next[p := n], prev[n := p], Without(r, i);
    forall j | 0 <= j < |r'|
      ensures r'[j] in next' && next'[r'[j]] == r'[Succ(|r'|, j)] && r'[j] in prev' && prev'[r'[j]] == r'[Pred(|r'|, j)]
    {
      GapLinks(next, prev, r, i, j);
    }
    assert Distinct(r') by { WithoutDistinct(r, i); }
  }

  lemma GapLinks<T>(next: map<T, T>, prev: map<T, T>, r: seq<T>, i: nat, j: nat)
    requires Ring(next, prev, r) && i < |r| && j < |r| - 1 && r[i] in next && r[i] in prev
    ensures var n, p := next[r[i]], prev[r[i]]; var next', prev', r' := next[p := n], prev[n := p], Without(r, i);
            && r'[j] in next' && next'[r'[j]] == r'[Succ(|r'|, j)]
            && r'[j] in prev' && prev'[r'[j]] == r'[Pred(|r'|, j)]
  {
    var o := Origin(i, j);
    WithoutAt(r, i);
    NeighboursAfterRemoval(|r|, i, j);
    assert next[r[i]] == r[Succ(|r|, i)] && prev[r[i]] == r[Pred(|r|, i)];
    assert next[r[o]] == r[Succ(|r|, o)] && prev[r[o]] == r[Pred(|r|, o)];
  }

  /** All four stores of `del`: the gap is closed and the node is alone. */
  lemma DelRings<T>(next: map<T, T>, prev: map<T, T>, r: seq<T>, i: nat)
    requires Ring(next, prev, r) && i < |r| && |r| > 1
    ensures r[i] in next && r[i] in prev && next[r[i]] in r && prev[r[i]] in r
    ensures var n, p := next[r[i]], prev[r[i]];
            var next', prev' := next[p := n][r[i] := r[i]], prev[n := p][r[i] := r[i]];
            Ring(next', prev', Without(r, i)) && Ring(next', prev', [r[i]])
  {
    Neighbours(next, prev, r, i);
    GapRing(next, prev, r, i);
    var n, p := next[r[i]], prev[r[i]];
    forall x | x in Without(r, i)
      ensures x != r[i]
    {
      WithoutMembers(r, i, x);
    }
    RingFrame(next[p := n], prev[n := p], next[p := n][r[i] := r[i]], prev[n := p][r[i] := r[i]], Without(r, i));
  }

  class ListMemory<T(==)> {
    var next: map<T, T>
    var prev: map<T, T>
    /** The circles in memory: any number of lists. */
    ghost var rings: set<seq<T>>

    ghost predicate Valid()
      reads this
    {
      && (forall r | r in rings :: Ring(next, prev, r))
      && (forall r, s | r in rings && s in rings && r != s :: Disjoint(r, s))
    }

    constructor ()
      ensures Valid() && rings == {}
    {
      next, prev, rings := map[], map[], {};
    }

    /** The node is on no list, or alone in its circle. */
    ghost predicate Unlisted(node: T)
      reads this
    {
      forall r | r in rings && node in r :: r == [node]
    }

    /** `init` of a node that is on no list with others. */
    method Init(node: T)
      requires Valid() && Unlisted(node)
      modifies this
      ensures Valid() && rings == old(rings) + {[node]}
    {
      ghost var others := rings - {[node]};
      next, prev := next[node := node], prev[node := node];
      OthersKept(old(next), old(prev), [], node, others);
      rings := rings + {[node]};
      assert Ring(next, prev, [node]);
    }

    /** `is_empty`. */
    method IsEmpty(head: T, ghost r: seq<T>) returns (b: bool)
      requires Valid() && r in rings && r[0] == head
      ensures b <==> r == [head]
    {
      assert Ring(next, prev, r);
      assert next[r[0]] == r[Succ(|r|, 0)];
      b := next[head] == head;
    }

    /** Stores to nodes of `r` and to `node` leave the circles of `others` alone. */
    lemma OthersKept(next0: map<T, T>, prev0: map<T, T>, r: seq<T>, node: T, others: set<seq<T>>)
      requires forall o | o in others :: Ring(next0, prev0, o) && node !in o && Disjoint(o, r)
      requires forall x | x in next0 && x !in r && x != node :: x in next && next[x] == next0[x]
      requires forall x | x in prev0 && x !in r && x != node :: x in prev && prev[x] == prev0[x]
      ensures forall o | o in others :: Ring(next, prev, o)
    {
      forall o | o in others
        ensures Ring(next, prev, o)
      {
        forall x | x in o
          ensures x in next && next[x] == next0[x] && x in prev && prev[x] == prev0[x]
        {
          var i :| 0 <= i < |o| && o[i] == x;
          assert next0[o[i]] == o[Succ(|o|, i)] && prev0[o[i]] == o[Pred(|o|, i)];
        }
        RingFrame(next0, prev0, next, prev, o);
      }
    }

    /** `add`: a node on no list with others, initialized or not, comes behind the node at position
        `i` of the list `r`, be it the head or any other. */
    method Add(node: T, at: T, ghost r: seq<T>, ghost i: nat)
      requires Valid() && r in rings && i < |r| && r[i] == at && Unlisted(node) && node != at
      modifies this
      ensures Valid() && rings == old(rings) - {r, [node]} + {InsertedAt(r, i, node)}
    {
      ghost var others := rings - {r, [node]};
      assert Ring(next, prev, r) && at in r && node !in r;
      InsertRing(next, prev, r, node, i);
      var n := next[at];
      next := next[node := n];
      prev := prev[node := at];
      next := next[at := node];
      prev := prev[n := node];
      assert r[Succ(|r|, i)] in r;
      OthersKept(old(next), old(prev), r, node, others);
      InsertDisjoint(r, i, node, others);
      rings := others + {InsertedAt(r, i, node)};
    }

    /** `add_tail`: such a node comes in front of the node at position `i`; in front of the head is
        the end of the list. */
    method AddTail(node: T, at: T, ghost r: seq<T>, ghost i: nat)
      requires Valid() && r in rings && i < |r| && r[i] == at && Unlisted(node) && node != at
      modifies this
      ensures Valid() && rings == old(rings) - {r, [node]} + {InsertedAt(r, Pred(|r|, i), node)}
    {
      ghost var others, j := rings - {r, [node]}, Pred(|r|, i);
      assert Ring(next, prev, r) && at in r && node !in r;
      InsertBefore(next, prev, r, node, i);
      var p := prev[at];
      next := next[node := at];
      prev := prev[node := p];
      prev := prev[at := node];
      next := next[p := node];
      OthersKept(old(next), old(prev), r, node, others);
      InsertDisjoint(r, j, node, others);
      rings := others + {InsertedAt(r, j, node)};
    }

    /** `del`: the rest of the list closes up and the node is alone in its circle again. */
    method Del(node: T, ghost r: seq<T>, ghost i: nat)
      requires Valid() && r in rings && 0 < i < |r| && r[i] == node
      modifies this
      ensures Valid() && rings == old(rings) - {r} + {Without(r, i), [node]}
    {
      ghost var others := rings - {r};
      DelRings(next, prev, r, i);
      var n, p := next[node], prev[node];
      prev := prev[n := p];
      next := next[p := n];
      next := next[node := node];
      prev := prev[node := node];
      assert node in r;
      OthersKept(old(next), old(prev), r, node, others);
      DelDisjoint(r, i, others);
      rings := others + {Without(r, i), [node]};
    }
  }

  lemma InsertDisjoint<T>(r: seq<T>, i: nat, node: T, others: set<seq<T>>)
    requires i < |r| && forall o | o in others :: Disjoint(o, r) && Disjoint(r, o) && node !in o
    ensures forall o | o in others :: Disjoint(o, InsertedAt(r, i, node)) && Disjoint(InsertedAt(r, i, node), o)
  {
    forall x
      ensures x in InsertedAt(r, i, node) ==> x in r || x == node
    {
    }
  }

  lemma DelDisjoint<T>(r: seq<T>, i: nat, others: set<seq<T>>)
    requires i < |r| && forall j, k | 0 <= j < k < |r| :: r[j] != r[k]
    requires forall o | o in others :: Disjoint(o, r) && Disjoint(r, o)
    ensures Disjoint(Without(r, i), [r[i]]) && Disjoint([r[i]], Without(r, i))
    ensures forall o | o in others :: Disjoint(o, Without(r, i)) && Disjoint(Without(r, i), o)
    ensures forall o | o in others :: Disjoint(o, [r[i]]) && Disjoint([r[i]], o)
  {
    forall x
      ensures x in Without(r, i) <==> x in r && x != r[i]
    {
      WithoutMembers(r, i, x);
    }
    assert r[i] in r;
  }
}
