/** The free lists of the buddy allocator (kernel/src/mm/buddy_allocator.rs): one doubly
    linked list per order, threaded through the array of block metadata by index.

    Everything here is stated on values: `meta` is the content of the metadata array,
    `heads` the content of `free_lists`, and `lists` the abstract sequences they encode.
  */
module BuddyLists {
  import opened Sequences

  datatype BlockMeta = BlockMeta(order: nat, free: nat, prev: nat, next: nat)

  const MAX_ORDER: nat := 20
  /** Null link in `prev` and `next`. */
  const NIL: nat := 0xFFFF

  /** Head value of an empty list: `MAX_PAGES + 1`. */
  function EmptyList(pages: nat): nat { pages + 1 }

  function U8(x: nat): nat { x % 0x100 }

  function U16(x: nat): nat { x % 0x1_0000 }

  /** `l` is a doubly linked, repetition-free list in `meta`. */
  ghost predicate Chain(meta: seq<BlockMeta>, l: seq<nat>) {
    && (forall i | 0 <= i < |l| :: l[i] < |meta|)
    && (forall i, j | 0 <= i < j < |l| :: l[i] != l[j])
    && (forall i {:trigger Before(l, i, NIL)} {:trigger After(l, i, NIL)} | 0 <= i < |l| ::
          meta[l[i]].prev == Before(l, i, NIL) && meta[l[i]].next == After(l, i, NIL))
  }

  /** Away from `hole`, `free == 1 && order == k` marks exactly the members of list `k`. */
  ghost predicate Tagged(meta: seq<BlockMeta>, lists: seq<seq<nat>>, hole: int)
    requires |lists| == MAX_ORDER + 1
  {
    && (forall b, k {:trigger b in lists[k]} |
          0 <= b < |meta| && b != hole && 0 <= k <= MAX_ORDER ::
          b in lists[k] <==> meta[b].free == 1 && meta[b].order == k)
    && (forall b | 0 <= b < |meta| && b != hole ::
          meta[b].free == 0 || (meta[b].free == 1 && meta[b].order <= MAX_ORDER))
  }

  ghost predicate Shaped(meta: seq<BlockMeta>, heads: seq<nat>, lists: seq<seq<nat>>) {
    && |heads| == |lists| == MAX_ORDER + 1
    && |meta| < NIL
    && (forall k | 0 <= k <= MAX_ORDER :: Chain(meta, lists[k]))
    && (forall k | 0 <= k <= MAX_ORDER :: heads[k] == First(lists[k], EmptyList(|meta|)))
  }

  /** The lists are well formed and tagged, except that page `hole`, which is on no list,
      may carry any metadata. No page is exempt when `hole` is -1. */
  ghost predicate WellLinked(meta: seq<BlockMeta>, heads: seq<nat>, lists: seq<seq<nat>>, hole: int) {
    && Shaped(meta, heads, lists)
    && Tagged(meta, lists, hole)
    && (forall k | 0 <= k <= MAX_ORDER :: hole !in lists[k])
  }

  /** `meta'` is `meta` after `add_to_free_list(p, k)` with `l` the old list of order `k`. */
  ghost predicate Pushed(meta: seq<BlockMeta>, meta': seq<BlockMeta>, l: seq<nat>, p: nat, k: nat) {
    && |meta'| == |meta|
    && p < |meta|
    && (forall i | 0 <= i < |l| :: l[i] < |meta|)
    && meta'[p] == BlockMeta(k, 1, NIL, if l == [] then NIL else l[0])
    && (l != [] ==> meta'[l[0]] == meta[l[0]].(prev := p))
    && (forall b | 0 <= b < |meta| && b != p && (l == [] || b != l[0]) :: meta'[b] == meta[b])
  }

  /** The stores of `add_to_free_list(p, k)` with `head` the old head of the list. */
  function Inserted(meta: seq<BlockMeta>, head: nat, p: nat, k: nat): seq<BlockMeta>
    requires p < |meta|
  {
    var m1 := meta[p := meta[p].(order := U8(k), free := 1)];
    var m2 := if head != EmptyList(|meta|) && head < |meta| then m1[head := m1[head].(prev := U16(p))] else m1;
    m2[p := m2[p].(next := if head == EmptyList(|meta|) then NIL else U16(head), prev := NIL)]
  }

  lemma InsertedPushes(meta: seq<BlockMeta>, l: seq<nat>, p: nat, k: nat)
    requires Chain(meta, l) && p < |meta| < NIL && p !in l && k <= MAX_ORDER
    ensures Pushed(meta, Inserted(meta, First(l, EmptyList(|meta|)), p, k), l, p, k)
  {
    assert l != [] ==> l[0] in l;
  }

  lemma PushChain(meta: seq<BlockMeta>, meta': seq<BlockMeta>, l: seq<nat>, p: nat, k: nat)
    requires Chain(meta, l) && p !in l
    requires Pushed(meta, meta', l, p, k)
    ensures Chain(meta', [p] + l)
  {
    var l' := [p] + l;
    forall i | 0 <= i < |l'|
      ensures meta'[l'[i]].prev == Before(l', i, NIL) && meta'[l'[i]].next == After(l', i, NIL)
    {
      if i > 0 {
        assert l'[i] == l[i - 1];
        assert meta[l[i - 1]].next == After(l, i - 1, NIL) && meta[l[i - 1]].prev == Before(l, i - 1, NIL);
        assert i > 1 ==> l[i - 1] != l[0];
      }
    }
  }

  /** A list none of whose members changed is still a list. */
  lemma KeepChain(meta: seq<BlockMeta>, meta': seq<BlockMeta>, l: seq<nat>)
    requires Chain(meta, l) && |meta'| == |meta|
    requires forall i | 0 <= i < |l| :: meta'[l[i]] == meta[l[i]]
    ensures Chain(meta', l)
  {
  }

  /** Two lists share no page. */
  lemma ListsDisjoint(meta: seq<BlockMeta>, heads: seq<nat>, lists: seq<seq<nat>>, hole: int, b: nat, j: nat, k: nat)
    requires WellLinked(meta, heads, lists, hole)
    requires j <= MAX_ORDER && k <= MAX_ORDER && j != k && b in lists[k]
    ensures b !in lists[j] && b < |meta|
  {
    var i :| 0 <= i < |lists[k]| && lists[k][i] == b;
    assert Chain(meta, lists[k]);
    assert b < |meta|;
  }

  lemma PushWellLinked(meta: seq<BlockMeta>, meta': seq<BlockMeta>, heads: seq<nat>, lists: seq<seq<nat>>,
                       p: nat, k: nat)
    requires WellLinked(meta, heads, lists, p)
    requires k <= MAX_ORDER
    requires Pushed(meta, meta', lists[k], p, k)
    ensures WellLinked(meta', heads[k := p], lists[k := [p] + lists[k]], -1)
  {
    var lists' := lists[k := [p] + lists[k]];
    var heads' := heads[k := p];
    var l := lists[k];
    assert Chain(meta, l) && p !in l;
    PushChain(meta, meta', l, p, k);
    forall j | 0 <= j <= MAX_ORDER
      ensures Chain(meta', lists'[j])
    {
      if j != k {
        assert Chain(meta, lists[j]);
        forall i | 0 <= i < |lists[j]|
          ensures meta'[lists[j][i]] == meta[lists[j][i]]
        {
          assert lists[j][i] in lists[j];
          if l != [] {
            assert l[0] in l;
            ListsDisjoint(meta, heads, lists, p, l[0], j, k);
          }
        }
        KeepChain(meta, meta', lists[j]);
      }
    }
    assert Shaped(meta', heads', lists');
    forall b, j | 0 <= b < |meta'| && 0 <= j <= MAX_ORDER
      ensures b in lists'[j] <==> meta'[b].free == 1 && meta'[b].order == j
    {
      assert b in lists'[j] <==> b in lists[j] || (j == k && b == p);
      if b != p {
        assert b in lists[j] <==> meta[b].free == 1 && meta[b].order == j;
        assert meta'[b].free == meta[b].free && meta'[b].order == meta[b].order;
      } else {
        assert p !in lists[j];
      }
    }
    forall b | 0 <= b < |meta'|
      ensures meta'[b].free == 0 || (meta'[b].free == 1 && meta'[b].order <= MAX_ORDER)
    {
      if b != p {
        assert meta'[b].free == meta[b].free && meta'[b].order == meta[b].order;
      }
    }
  }

  /** `meta'` is `meta` after `remove_from_free_list(l[i], k)` with `l` the list of order `k`. */
  ghost predicate Unlinked(meta: seq<BlockMeta>, meta': seq<BlockMeta>, l: seq<nat>, i: nat) {
    && |meta'| == |meta|
    && i < |l|
    && (forall j | 0 <= j < |l| :: l[j] < |meta|)
    && meta'[l[i]] == meta[l[i]].(free := 0)
    && (i > 0 ==> meta'[l[i - 1]] == meta[l[i - 1]].(next := After(l, i, NIL)))
    && (i + 1 < |l| ==> meta'[l[i + 1]] == meta[l[i + 1]].(prev := Before(l, i, NIL)))
    && (forall b | 0 <= b < |meta| && b != l[i] && (i > 0 ==> b != l[i - 1])
                   && (i + 1 < |l| ==> b != l[i + 1]) :: meta'[b] == meta[b])
  }

  lemma UnlinkLink(meta: seq<BlockMeta>, meta': seq<BlockMeta>, l: seq<nat>, i: nat, j: nat)
    requires Chain(meta, l)
    requires Unlinked(meta, meta', l, i)
    requires j < |l| - 1
    ensures |Without(l, i)| == |l| - 1
    ensures meta'[l[Origin(i, j)]].prev == Before(Without(l, i), j, NIL)
    ensures meta'[l[Origin(i, j)]].next == After(Without(l, i), j, NIL)
  {
    var o := Origin(i, j);
    NeighboursWithout(l, i, j, NIL);
    assert meta[l[o]].prev == Before(l, o, NIL) && meta[l[o]].next == After(l, o, NIL);
    assert l[o] != l[i];
    if o == i - 1 {
      assert meta'[l[o]] == meta[l[o]].(next := After(l, i, NIL));
    } else if o == i + 1 {
      assert meta'[l[o]] == meta[l[o]].(prev := Before(l, i, NIL));
    } else {
      assert meta'[l[o]] == meta[l[o]];
    }
  }

  lemma UnlinkChain(meta: seq<BlockMeta>, meta': seq<BlockMeta>, l: seq<nat>, i: nat)
    requires Chain(meta, l)
    requires Unlinked(meta, meta', l, i)
    ensures Chain(meta', Without(l, i))
  {
    var l' := Without(l, i);
    WithoutAt(l, i);
    forall x, y | 0 <= x < y < |l'|
      ensures l'[x] != l'[y]
    {
      assert l'[x] == l[Origin(i, x)] && l'[y] == l[Origin(i, y)];
    }
    forall j | 0 <= j < |l'|
      ensures meta'[l'[j]].prev == Before(l', j, NIL) && meta'[l'[j]].next == After(l', j, NIL)
    {
      UnlinkLink(meta, meta', l, i, j);
    }
  }

  lemma UnlinkWellLinked(meta: seq<BlockMeta>, meta': seq<BlockMeta>, heads: seq<nat>, lists: seq<seq<nat>>,
                         k: nat, i: nat)
    requires WellLinked(meta, heads, lists, -1)
    requires k <= MAX_ORDER && i < |lists[k]|
    requires Unlinked(meta, meta', lists[k], i)
    ensures WellLinked(meta', heads[k := First(Without(lists[k], i), EmptyList(|meta|))],
                       lists[k := Without(lists[k], i)], -1)
  {
    var l := lists[k];
    var l' := Without(l, i);
    var lists' := lists[k := l'];
    var heads' := heads[k := First(l', EmptyList(|meta|))];
    assert Chain(meta, l);
    UnlinkChain(meta, meta', l, i);
    forall j | 0 <= j <= MAX_ORDER
      ensures Chain(meta', lists'[j])
    {
      if j != k {
        assert Chain(meta, lists[j]);
        forall x | 0 <= x < |lists[j]|
          ensures meta'[lists[j][x]] == meta[lists[j][x]]
        {
          assert lists[j][x] in lists[j];
          ListsDisjoint(meta, heads, lists, -1, lists[j][x], k, j);
        }
        KeepChain(meta, meta', lists[j]);
      }
    }
    assert Shaped(meta', heads', lists');
    assert forall b | 0 <= b < |meta| && b != l[i] :: meta'[b].free == meta[b].free && meta'[b].order == meta[b].order;
    forall b, j | 0 <= b < |meta'| && 0 <= j <= MAX_ORDER
      ensures b in lists'[j] <==> meta'[b].free == 1 && meta'[b].order == j
    {
      WithoutMembers(l, i, b);
      assert b in lists[j] <==> meta[b].free == 1 && meta[b].order == j;
      assert l[i] in l;
      if b == l[i] && j != k {
        ListsDisjoint(meta, heads, lists, -1, b, j, k);
      }
    }
    forall j | 0 <= j <= MAX_ORDER
      ensures -1 !in lists'[j]
    {
    }
  }

  /** The three stores of `remove_from_free_list`, one after the other. */
  function Bypassed(meta: seq<BlockMeta>, prev: nat, p: nat, next: nat): seq<BlockMeta>
    requires p < |meta| && (prev < |meta| || prev == NIL) && (next < |meta| || next == NIL)
    requires |meta| < NIL
  {
    var a := if prev != NIL then meta[prev := meta[prev].(next := next)] else meta;
    var b := if next != NIL then a[next := a[next].(prev := prev)] else a;
    b[p := b[p].(free := 0)]
  }

  lemma LinksInRange(meta: seq<BlockMeta>, l: seq<nat>, i: nat)
    requires Chain(meta, l) && i < |l| && |meta| < NIL
    ensures var prev, next := Before(l, i, NIL), After(l, i, NIL);
            && l[i] < |meta| && meta[l[i]].prev == prev && meta[l[i]].next == next
            && (if i == 0 then prev == NIL else prev == l[i - 1] && prev < |meta|)
            && (if i + 1 == |l| then next == NIL else next == l[i + 1] && next < |meta|)
            && prev != l[i] && next != l[i] && (prev == next ==> prev == NIL)
  {
  }

  lemma BypassUnlinks(meta: seq<BlockMeta>, l: seq<nat>, i: nat)
    requires Chain(meta, l) && i < |l| && |meta| < NIL
    requires l[i] < |meta| && (Before(l, i, NIL) < |meta| || Before(l, i, NIL) == NIL)
    requires After(l, i, NIL) < |meta| || After(l, i, NIL) == NIL
    ensures Unlinked(meta, Bypassed(meta, Before(l, i, NIL), l[i], After(l, i, NIL)), l, i)
  {
    LinksInRange(meta, l, i);
  }

  /** A page on no list may be given any metadata. */
  lemma StoreOffList(meta: seq<BlockMeta>, heads: seq<nat>, lists: seq<seq<nat>>, p: nat, v: BlockMeta)
    requires WellLinked(meta, heads, lists, -1) && p < |meta|
    requires forall k | 0 <= k <= MAX_ORDER :: p !in lists[k]
    ensures WellLinked(meta[p := v], heads, lists, p)
    ensures v.free == 0 ==> WellLinked(meta[p := v], heads, lists, -1)
  {
    var meta' := meta[p := v];
    forall k | 0 <= k <= MAX_ORDER
      ensures Chain(meta', lists[k])
    {
      assert Chain(meta, lists[k]);
      assert forall i | 0 <= i < |lists[k]| :: lists[k][i] in lists[k];
      KeepChain(meta, meta', lists[k]);
    }
    assert Shaped(meta', heads, lists);
    assert Tagged(meta', lists, p);
  }
}
