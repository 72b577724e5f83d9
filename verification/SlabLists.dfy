/** Doubly linked lists of slabs (kernel/src/mm/slab.rs): slab indices start at 1, and 0 ends
    a list in both directions. The links are those of the slab headers.
  */
module SlabLists {
  import opened Sequences

  /** The index that ends a list. */
  const NO_SLAB: nat := 0

  /** The header at the start of every slab page. */
  datatype Header = Header(cacheIdx: nat, objectSize: nat, total: nat, freeObjects: nat, freeIndex: nat,
                           next: nat, prev: nat)

  /** `l` is a doubly linked list of distinct slabs. */
  ghost predicate Linked(hs: seq<Header>, l: seq<nat>) {
    && (forall i | 0 <= i < |l| :: 0 < l[i] < |hs|)
    && (forall i, j | 0 <= i < j < |l| :: l[i] != l[j])
    && (forall i {:trigger Before(l, i, NO_SLAB)} {:trigger After(l, i, NO_SLAB)} | 0 <= i < |l| ::
          hs[l[i]].prev == Before(l, i, NO_SLAB) && hs[l[i]].next == After(l, i, NO_SLAB))
  }

  /** The headers agree in everything but the links. */
  ghost predicate SameContent(hs: seq<Header>, hs': seq<Header>) {
    && |hs| == |hs'|
    && forall s | 0 <= s < |hs| :: hs'[s] == hs[s].(next := hs'[s].next, prev := hs'[s].prev)
  }

  /** Unlinks slab `s` with neighbours `prev` and `next`. */
  function Unlink(hs: seq<Header>, prev: nat, next: nat): (r: seq<Header>)
    requires prev < |hs| && next < |hs|
    ensures SameContent(hs, r)
  {
    var a := if prev == 0 then hs else hs[prev := hs[prev].(next := next)];
    if next == 0 then a else a[next := a[next].(prev := prev)]
  }

  lemma LinksOf(hs: seq<Header>, l: seq<nat>, i: nat)
    requires Linked(hs, l) && i < |l|
    ensures 0 < l[i] < |hs| && hs[l[i]].prev == Before(l, i, NO_SLAB) && hs[l[i]].next == After(l, i, NO_SLAB)
    ensures Before(l, i, NO_SLAB) < |hs| && After(l, i, NO_SLAB) < |hs|
    ensures Before(l, i, NO_SLAB) == 0 <==> i == 0
    ensures After(l, i, NO_SLAB) == 0 <==> i + 1 == |l|
    ensures Before(l, i, NO_SLAB) != l[i] && After(l, i, NO_SLAB) != l[i]
    ensures Before(l, i, NO_SLAB) == After(l, i, NO_SLAB) ==> Before(l, i, NO_SLAB) == 0
  {
  }

  lemma HeadIsNull(hs: seq<Header>, l: seq<nat>)
    requires Linked(hs, l)
    ensures First(l, NO_SLAB) == 0 <==> l == []
  {
  }

  lemma UnlinkOne(hs: seq<Header>, l: seq<nat>, i: nat, j: nat)
    requires Linked(hs, l) && i < |l| && j < |l| - 1
    requires Before(l, i, NO_SLAB) < |hs| && After(l, i, NO_SLAB) < |hs|
    ensures |Without(l, i)| == |l| - 1
    ensures var hs' := Unlink(hs, Before(l, i, NO_SLAB), After(l, i, NO_SLAB)); var o := l[Origin(i, j)];
            && o < |hs'| && hs'[o].prev == Before(Without(l, i), j, NO_SLAB)
            && hs'[o].next == After(Without(l, i), j, NO_SLAB)
  {
    var o := Origin(i, j);
    LinksOf(hs, l, i);
    LinksOf(hs, l, o);
    NeighboursWithout(l, i, j, NO_SLAB);
    assert l[o] == Before(l, i, NO_SLAB) <==> o + 1 == i;
    assert l[o] == After(l, i, NO_SLAB) <==> o == i + 1;
  }

  lemma UnlinkLinked(hs: seq<Header>, l: seq<nat>, i: nat)
    requires Linked(hs, l) && i < |l|
    requires Before(l, i, NO_SLAB) < |hs| && After(l, i, NO_SLAB) < |hs|
    ensures Linked(Unlink(hs, Before(l, i, NO_SLAB), After(l, i, NO_SLAB)), Without(l, i))
  {
    var hs', l' := Unlink(hs, Before(l, i, NO_SLAB), After(l, i, NO_SLAB)), Without(l, i);
    WithoutAt(l, i);
    forall x, y | 0 <= x < y < |l'|
      ensures l'[x] != l'[y]
    {
      assert l'[x] == l[Origin(i, x)] && l'[y] == l[Origin(i, y)];
    }
    forall j | 0 <= j < |l'|
      ensures hs'[l'[j]].prev == Before(l', j, NO_SLAB) && hs'[l'[j]].next == After(l', j, NO_SLAB)
    {
      UnlinkOne(hs, l, i, j);
    }
  }

  /** Puts slab `s` in front of the list that starts at `head`. */
  function PushFront(hs: seq<Header>, head: nat, s: nat): (r: seq<Header>)
    requires head < |hs| && s < |hs|
    ensures SameContent(hs, r)
  {
    var a := hs[s := hs[s].(next := head, prev := 0)];
    if head == 0 then a else a[head := a[head].(prev := s)]
  }

  lemma PushLinked(hs: seq<Header>, l: seq<nat>, s: nat)
    requires Linked(hs, l) && 0 < s < |hs| && s !in l && First(l, NO_SLAB) < |hs|
    ensures Linked(PushFront(hs, First(l, NO_SLAB), s), [s] + l)
  {
    var hs', l' := PushFront(hs, First(l, NO_SLAB), s), [s] + l;
    forall i | 0 <= i < |l'|
      ensures hs'[l'[i]].prev == Before(l', i, NO_SLAB) && hs'[l'[i]].next == After(l', i, NO_SLAB)
    {
      if i > 0 {
        LinksOf(hs, l, i - 1);
        assert l'[i] == l[i - 1];
        assert i > 1 ==> l[i - 1] != l[0];
      }
    }
  }

  /** A list is untouched by changes to slabs that are not on it. */
  lemma KeepLinked(hs: seq<Header>, hs': seq<Header>, l: seq<nat>)
    requires Linked(hs, l) && |hs'| >= |hs|
    requires forall i | 0 <= i < |l| :: hs'[l[i]].next == hs[l[i]].next && hs'[l[i]].prev == hs[l[i]].prev
    ensures Linked(hs', l)
  {
    forall i | 0 <= i < |l|
      ensures hs'[l[i]].prev == Before(l, i, NO_SLAB) && hs'[l[i]].next == After(l, i, NO_SLAB)
    {
      LinksOf(hs, l, i);
    }
  }

  /** Moving slab `from[i]` to the front of `to`. */
  lemma MoveLinked(hs: seq<Header>, from: seq<nat>, to: seq<nat>, i: nat)
    requires Linked(hs, from) && Linked(hs, to) && i < |from| && First(to, NO_SLAB) < |hs|
    requires forall s | s in from :: s !in to
    requires Before(from, i, NO_SLAB) < |hs| && After(from, i, NO_SLAB) < |hs| && from[i] < |hs|
    ensures var unlinked := Unlink(hs, Before(from, i, NO_SLAB), After(from, i, NO_SLAB));
            var hs' := PushFront(unlinked, First(to, NO_SLAB), from[i]);
            Linked(hs', Without(from, i)) && Linked(hs', [from[i]] + to) && SameContent(hs, hs')
  {
    var s := from[i];
    var a := Unlink(hs, Before(from, i, NO_SLAB), After(from, i, NO_SLAB));
    var hs' := PushFront(a, First(to, NO_SLAB), s);
    LinksOf(hs, from, i);
    UnlinkLinked(hs, from, i);
    assert s in from;
    assert i > 0 ==> from[i - 1] in from;
    assert i + 1 < |from| ==> from[i + 1] in from;
    assert forall x | 0 <= x < |to| :: to[x] in to;
    KeepLinked(hs, a, to);
    PushLinked(a, to, s);
    var rest := Without(from, i);
    forall x | 0 <= x < |rest|
      ensures hs'[rest[x]].next == a[rest[x]].next && hs'[rest[x]].prev == a[rest[x]].prev
    {
      assert rest[x] in rest;
      WithoutMembers(from, i, rest[x]);
    }
    KeepLinked(a, hs', rest);
  }
}
