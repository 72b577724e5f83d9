/** The buddy allocator (kernel/src/mm/buddy_allocator.rs): a heap of 2^m pages,
    split downwards by allocation and merged upwards by release. The stored state is the
    metadata array and the list heads; the ghost fields say what they represent.
  */
module BuddyAllocator {
  import opened Basics
  import opened Bits
  import opened Sequences
  import opened BuddyLists
  import opened BuddyLayout
  import opened BuddyInvariant

  const HEAP_START: nat := 0x80A0_0000
  /** Null pointer. */
  const NULL: nat := 0

  /** `order` is the smallest order whose blocks hold `size` bytes. */
  predicate Fits(size: nat, order: nat) {
    && size <= PAGE_SIZE * Pow2(order)
    && (order > 0 ==> PAGE_SIZE * Pow2(order - 1) < size)
  }

  lemma FitsUnique(size: nat, j: nat, k: nat)
    requires Fits(size, j) && Fits(size, k)
    ensures j == k
  {
    if j < k {
      Pow2Monotone(j, k - 1);
    } else if k < j {
      Pow2Monotone(k, j - 1);
    }
  }

  /** `size_to_order` and `heap_size_to_order`. */
  method SizeToOrder(size: nat) returns (order: nat)
    ensures Fits(size, order)
  {
    order := 0;
    var blockSize := PAGE_SIZE;
    while blockSize < size
      invariant blockSize == PAGE_SIZE * Pow2(order)
      invariant order > 0 ==> PAGE_SIZE * Pow2(order - 1) < size
      decreases size - blockSize
    {
      blockSize := blockSize * 2;
      order := order + 1;
    }
  }

  function PageAddr(p: nat): nat { HEAP_START + p * PAGE_SIZE }

  function AddrPage(addr: nat): nat
    requires addr >= HEAP_START
  {
    (addr - HEAP_START) / PAGE_SIZE
  }

  lemma PageOfAddr(p: nat)
    ensures AddrPage(PageAddr(p)) == p
  {
  }

  lemma BulkSucc(n: nat, k: nat)
    ensures Bulk(n + 1, k) == Bulk(n, k) + Pow2(k)
  {
  }

  /** From one state to the next, the aligned run of 2^order pages from `page` on, inside the heap
      and free until then, has become one more live block. */
  ghost predicate Granted(m: nat, blocks: Blocks, live: set<nat>, blocks': Blocks, live': set<nat>,
                          page: nat, order: nat)
  {
    && live <= blocks.Keys && live' <= blocks'.Keys
    && Aligned(page, order) && page + Pow2(order) <= Pow2(m) && RunFree(blocks, live, page, order)
    && page !in live
    && LiveBlocks(blocks', live') == LiveBlocks(blocks, live)[page := order]
  }

  /** `page` is the first page of a free block that is large enough, no smaller free block is, and it
      is the first on its list. */
  ghost predicate BestFit(lists: seq<seq<nat>>, blocks: Blocks, live: set<nat>, page: nat, order: nat) {
    && page in blocks && page !in live && order <= blocks[page]
    && blocks[page] < |lists| && lists[blocks[page]] != [] && lists[blocks[page]][0] == page
    && (forall h | h in blocks && h !in live && order <= blocks[h] :: blocks[page] <= blocks[h])
  }

  lemma FirstIsBestFit(m: nat, lists: seq<seq<nat>>, blocks: Blocks, live: set<nat>, k: nat, order: nat)
    requires Represents(m, lists, blocks, live) && order <= k <= MAX_ORDER && lists[k] != []
    requires forall j | order <= j < k :: lists[j] == []
    ensures BestFit(lists, blocks, live, lists[k][0], order) && blocks[lists[k][0]] == k
  {
    assert lists[k][0] in lists[k];
    forall h | h in blocks && h !in live && order <= blocks[h]
      ensures k <= blocks[h]
    {
      assert IsFree(blocks, live, h, blocks[h]);
      assert h in lists[blocks[h]];
    }
  }

  lemma GrantedByTaking(m: nat, blocks: Blocks, live: set<nat>, blocks': Blocks, live': set<nat>,
                        p: nat, k: nat, order: nat)
    requires Partition(m, blocks) && p in blocks && p !in live && blocks[p] == k >= order
    requires live' == live + {p} && Agree(blocks, blocks', live' - {p}) && p in blocks' && blocks'[p] == order
    ensures Granted(m, blocks, live, blocks', live', p, order) && HasRun(m, blocks, live, order)
  {
    assert live' - {p} == live;
    FreeBlockIsRun(m, blocks, live, p, order);
    LiveBlocksAdd(blocks, blocks', live, p, order);
  }

  /** A split leaves the other live blocks alone. */
  lemma SplitOthers(blocks: Blocks, live: set<nat>, p: nat, k: nat)
    requires live <= blocks.Keys && p in live && blocks[p] == k > 0 && p + Pow2(k - 1) !in blocks
    ensures Split(blocks, p)[p] == k - 1 && Agree(blocks, Split(blocks, p), live - {p})
  {
  }

  /** A merge leaves the other live blocks alone. */
  lemma MergeOthers(blocks: Blocks, live: set<nat>, p: nat, k: nat, c: nat, lo: nat)
    requires live <= blocks.Keys && p in live && blocks[p] == k && c in blocks && c !in live
    requires lo == if p < c then p else c
    ensures var blocks', live' := Merge(blocks, p, c), live - {p} + {lo};
            && lo in live' && lo in blocks' && blocks'[lo] == k + 1
            && live' - {lo} == live - {p} && Agree(blocks, blocks', live' - {lo})
            && Remaining(blocks, blocks', lo, p)
  {
  }

  /** In bytes: a block lies inside the heap, and two blocks do not overlap. */
  lemma BlockBytes(m: nat, blocks: Blocks, b: nat, c: nat)
    requires Partition(m, blocks) && b in blocks && c in blocks
    ensures HEAP_START <= PageAddr(b) && PageAddr(b) + PAGE_SIZE * Pow2(blocks[b]) <= HEAP_START + PAGE_SIZE * Pow2(m)
    ensures b == c || PageAddr(b) + PAGE_SIZE * Pow2(blocks[b]) <= PageAddr(c)
            || PageAddr(c) + PAGE_SIZE * Pow2(blocks[c]) <= PageAddr(b)
  {
    assert b < c ==> b + Pow2(blocks[b]) <= c;
    assert c < b ==> c + Pow2(blocks[c]) <= b;
  }

  /** Every block but the one at `p` was there before, and was not the one at `page`. */
  ghost predicate Remaining(blocks: Blocks, blocks': Blocks, p: nat, page: nat) {
    forall b | b in blocks' && b != p :: b in blocks && b != page && blocks[b] == blocks'[b]
  }

  /** The free block at `h` contains the page and is the first of its list. */
  ghost predicate FreedFirst(lists: seq<seq<nat>>, blocks: Blocks, live: set<nat>, page: nat, h: nat) {
    && h !in live && Owns(blocks, h, page)
    && blocks[h] < |lists| && lists[blocks[h]] != [] && lists[blocks[h]][0] == h
  }

  /** If all other blocks remain as they were, the new block has the pages of the old one. */
  lemma NewOwner(m: nat, blocks: Blocks, blocks': Blocks, p: nat, page: nat)
    requires Partition(m, blocks) && Partition(m, blocks') && page in blocks && Remaining(blocks, blocks', p, page)
    ensures Owns(blocks', p, page)
  {
    assert Owns(blocks, page, page) && page < Pow2(m);
    assert HasOwner(blocks', page);
    var b :| Owns(blocks', b, page);
    assert b != p ==> Owns(blocks, b, page);
  }

  lemma RemainingOn(blocks0: Blocks, blocks: Blocks, blocks': Blocks, p: nat, lo: nat, page: nat)
    requires Remaining(blocks0, blocks, p, page) && Remaining(blocks, blocks', lo, p)
    ensures Remaining(blocks0, blocks', lo, page)
  {
  }

  class Allocator {
    /** The heap has 2^m pages; the configuration file demands a power of two. */
    const m: nat
    const meta: array<BlockMeta>
    const freeLists: array<nat>
    var initialized: bool

    ghost var lists: seq<seq<nat>>
    ghost var blocks: Blocks
    ghost var live: set<nat>

    ghost predicate Shape() {
      m <= MAX_EXPONENT && meta.Length == Pow2(m) && freeLists.Length == MAX_ORDER + 1
    }

    /** The invariant once the allocator is initialized. */
    ghost predicate Good()
      reads this, meta, freeLists
    {
      Shape() && Consistent(m, meta[..], freeLists[..], lists, blocks, live)
    }

    ghost predicate Valid()
      reads this, meta, freeLists
    {
      && Shape()
      && (initialized ==> Good())
      && (!initialized ==> forall i | 0 <= i < meta.Length :: meta[i].free == 0)
    }

    /** The handed-out blocks: first page to order. */
    ghost function Live(): Blocks
      requires Valid()
      reads this, meta, freeLists
    {
      if initialized then LiveBlocks(blocks, live) else map[]
    }

    constructor (m: nat)
      requires m <= MAX_EXPONENT
      ensures Valid() && !initialized && this.m == m && fresh(meta) && fresh(freeLists)
    {
      this.m := m;
      var pages := Pow2(m);
      meta := new BlockMeta[pages](_ => BlockMeta(0, 0, 0, 0));
      freeLists := new nat[MAX_ORDER + 1](_ => 0);
      initialized := false;
    }

    /** `get_mut` falls back to entry 0 for an index outside the array. */
    function Slot(idx: nat): nat {
      if idx >= meta.Length then 0 else idx
    }

    method InitBlock(p: nat, k: nat, free: bool)
      requires Shape() && p < meta.Length
      modifies meta
      ensures meta[..] == old(meta[..])[p := BlockMeta(U8(k), if free then 1 else 0, 0, 0)]
    {
      meta[Slot(p)] := BlockMeta(U8(k), if free then 1 else 0, 0, 0);
    }

    method AddToFreeList(p: nat, k: nat)
      requires Shape() && p < meta.Length
      requires WellLinked(meta[..], freeLists[..], lists, p)
      modifies meta, freeLists, this`lists
      ensures k > MAX_ORDER ==>
                meta[..] == old(meta[..]) && freeLists[..] == old(freeLists[..]) && lists == old(lists)
      ensures k <= MAX_ORDER ==>
                && lists == old(lists)[k := [p] + old(lists[k])]
                && WellLinked(meta[..], freeLists[..], lists, -1)
    {
      if k > MAX_ORDER {
        return;
      }
      ghost var meta0, heads0, l := meta[..], freeLists[..], lists[k];
      meta[Slot(p)] := meta[Slot(p)].(order := U8(k), free := 1);
      var head := freeLists[k];
      if head != EmptyList(meta.Length) && head < meta.Length {
        meta[Slot(head)] := meta[Slot(head)].(prev := U16(p));
      }
      meta[Slot(p)] := meta[Slot(p)].(next := if head == EmptyList(meta.Length) then NIL else U16(head), prev := NIL);
      freeLists[k] := p;
      assert meta[..] == Inserted(meta0, head, p, k);
      assert Chain(meta0, l) && head == First(l, EmptyList(|meta0|));
      InsertedPushes(meta0, l, p, k);
      PushWellLinked(meta0, meta[..], heads0, lists, p, k);
      lists := lists[k := [p] + l];
      assert freeLists[..] == heads0[k := p];
    }

    /** The stores of `remove_from_free_list`: the neighbours of `p` are linked to each other. */
    method Bypass(p: nat, k: nat)
      requires Shape() && p < meta.Length && k <= MAX_ORDER
      requires meta[p].prev < meta.Length || meta[p].prev == NIL
      requires meta[p].next < meta.Length || meta[p].next == NIL
      requires meta.Length < NIL
      modifies meta, freeLists
      ensures meta[..] == Bypassed(old(meta[..]), old(meta[p].prev), p, old(meta[p].next))
      ensures old(meta[p].prev) != NIL ==> freeLists[..] == old(freeLists[..])
      ensures old(meta[p].prev) == NIL ==> freeLists[..] == old(freeLists[..])[k :=
                if old(meta[p].next) == NIL then EmptyList(meta.Length) else old(meta[p].next)]
    {
      var prev, next := meta[p].prev, meta[p].next;
      assert U16(next) == next && U16(prev) == prev;
      if prev != NIL && prev < meta.Length {
        meta[Slot(prev)] := meta[Slot(prev)].(next := U16(next));
      } else {
        freeLists[k] := if next == NIL then EmptyList(meta.Length) else next;
      }
      ghost var meta0 := old(meta[..]);
      assert meta[..] == if prev != NIL then meta0[prev := meta0[prev].(next := next)] else meta0;
      if next != NIL && next < meta.Length {
        meta[Slot(next)] := meta[Slot(next)].(prev := U16(prev));
      }
      meta[Slot(p)] := meta[Slot(p)].(free := 0);
    }

    method RemoveFromFreeList(p: nat, k: nat) returns (ghost i: nat)
      requires Shape() && WellLinked(meta[..], freeLists[..], lists, -1)
      requires k <= MAX_ORDER ==> p in lists[k]
      modifies meta, freeLists, this`lists
      ensures k > MAX_ORDER ==>
                meta[..] == old(meta[..]) && freeLists[..] == old(freeLists[..]) && lists == old(lists)
      ensures k <= MAX_ORDER ==>
                && i < |old(lists[k])| && old(lists[k])[i] == p
                && lists == old(lists)[k := Without(old(lists[k]), i)]
                && WellLinked(meta[..], freeLists[..], lists, -1)
                && meta[..][p].free == 0
    {
      if k > MAX_ORDER {
        i := 0;
        return;
      }
      ghost var meta0, heads0 := meta[..], freeLists[..];
      ghost var l := lists[k];
      assert Chain(meta0, l);
      i :| 0 <= i < |l| && l[i] == p;
      LinksInRange(meta0, l, i);
      Bypass(p, k);
      BypassUnlinks(meta0, l, i);
      UnlinkWellLinked(meta0, meta[..], heads0, lists, k, i);
      WithoutHead(l, i);
      lists := lists[k := Without(l, i)];
    }

    // ----- the elementary steps

    /** Takes the first block off list `k`. */
    method Take(k: nat) returns (p: nat)
      requires Good() && k <= MAX_ORDER && lists[k] != []
      modifies meta, freeLists, this`lists, this`live
      ensures Good()
      ensures p == old(lists[k][0]) && p !in old(live) && live == old(live) + {p}
      ensures p in blocks && blocks[p] == k
    {
      p := freeLists[k];
      ghost var lists0 := lists;
      assert Chain(meta[..], lists[k]);
      assert p == lists[k][0] && p in lists[k];
      ghost var i := RemoveFromFreeList(p, k);
      TakeStep(m, lists0, blocks, live, p, k, i);
      live := live + {p};
    }

    /** The stores of one split: `c` becomes the head of a free block, `p` of a live one. */
    method StoreHalves(p: nat, c: nat, k: nat)
      requires Shape() && p < meta.Length && c < meta.Length && p != c && k <= MAX_ORDER
      requires WellLinked(meta[..], freeLists[..], lists, -1)
      requires forall j | 0 <= j <= MAX_ORDER :: p !in lists[j] && c !in lists[j]
      modifies meta, freeLists, this`lists
      ensures WellLinked(meta[..], freeLists[..], lists, -1)
      ensures lists == old(lists)[k := [c] + old(lists[k])]
    {
      StoreOffList(meta[..], freeLists[..], lists, c, BlockMeta(U8(k), 1, 0, 0));
      InitBlock(c, k, true);
      AddToFreeList(c, k);
      StoreOffList(meta[..], freeLists[..], lists, p, BlockMeta(U8(k), 0, 0, 0));
      InitBlock(p, k, false);
    }

    /** One round of the split loop of `alloc_blocks`. */
    method SplitOff(p: nat, k: nat)
      requires Good()
      requires p in live && blocks[p] == k > 0
      modifies meta, freeLists, this`lists, this`blocks
      ensures Good() && p in blocks && blocks[p] == k - 1
      ensures Agree(old(blocks), blocks, live - {p})
    {
      var buddy := p + Pow2(k) / 2;
      assert Pow2(k) == 2 * Pow2(k - 1);
      SplitStep(m, lists, blocks, live, p, k - 1, buddy);
      SplitOthers(blocks, live, p, k);
      StoreHalves(p, buddy, k - 1);
      blocks := Split(blocks, p);
    }

    /** One round of the merge loop of `free_blocks`. */
    method MergeBuddy(p: nat, k: nat) returns (lo: nat)
      requires Good()
      requires p in live && blocks[p] == k < m
      requires IsFree(blocks, live, Buddy(p, k), k)
      modifies meta, freeLists, this`lists, this`blocks, this`live
      ensures Good() && lo in live && blocks[lo] == k + 1
      ensures Remaining(old(blocks), blocks, lo, p)
      ensures live - {lo} == old(live) - {p}
      ensures Agree(old(blocks), blocks, live - {lo})
    {
      var buddy := Buddy(p, k);
      ghost var lists0 := lists;
      assert Chain(meta[..], lists[k]);
      assert buddy in lists[k];
      ghost var i := RemoveFromFreeList(buddy, k);
      lo := p;
      if lo > buddy {
        lo := buddy;
      }
      MergeStep(m, lists0, blocks, live, p, k, buddy, lo, i);
      MergeOthers(blocks, live, p, k, buddy, lo);
      blocks, live := Merge(blocks, p, buddy), live - {p} + {lo};
    }

    /** The end of `free_blocks`: the block goes on its list. */
    method Release(p: nat, k: nat)
      requires Good()
      requires p in live && blocks[p] == k
      requires k < m ==> !IsFree(blocks, live, Buddy(p, k), k)
      modifies meta, freeLists, this`lists, this`live
      ensures Good()
      ensures live == old(live) - {p} && k <= MAX_ORDER && lists == old(lists)[k := [p] + old(lists[k])]
    {
      ReleaseStep(m, lists, blocks, live, p, k);
      StoreOffList(meta[..], freeLists[..], lists, p, meta[p]);
      assert meta[..][p := meta[p]] == meta[..];
      AddToFreeList(p, k);
      live := live - {p};
    }

    // ----- the allocator interface

    method Init()
      requires Valid()
      modifies this, meta, freeLists
      ensures Valid() && initialized
      ensures old(initialized) ==> Live() == old(Live())
      ensures !old(initialized) ==> Live() == map[] && blocks == map[0 := m]
    {
      if initialized {
        return;
      }
      for k := 0 to MAX_ORDER + 1
        invariant forall j | 0 <= j < k :: freeLists[j] == EmptyList(meta.Length)
        invariant forall i | 0 <= i < meta.Length :: meta[i].free == 0
      {
        freeLists[k] := EmptyList(meta.Length);
      }
      var maxOrder := SizeToOrder(meta.Length * PAGE_SIZE);
      assert Fits(meta.Length * PAGE_SIZE, m) by {
        assert m > 0 ==> Pow2(m) == 2 * Pow2(m - 1);
      }
      FitsUnique(meta.Length * PAGE_SIZE, maxOrder, m);
      lists := seq(MAX_ORDER + 1, _ => []);
      InitBlock(0, maxOrder, false);
      EmptyWellLinked(m, meta[..], freeLists[..], lists);
      AddToFreeList(0, maxOrder);
      blocks, live := map[0 := m], {};
      InitialRepresents(m, lists);
      initialized := true;
    }

    /** The search loop of `alloc_blocks`: the first non-empty list of sufficient order. */
    method FindList(order: nat) returns (k: nat)
      requires Shape() && WellLinked(meta[..], freeLists[..], lists, -1)
      ensures order <= k
      ensures k <= MAX_ORDER ==> lists[k] != []
      ensures forall j | order <= j < k && j <= MAX_ORDER :: lists[j] == []
    {
      k := order;
      while k <= MAX_ORDER
        invariant order <= k
        invariant forall j | order <= j < k && j <= MAX_ORDER :: lists[j] == []
      {
        var head := freeLists[k];
        assert Chain(meta[..], lists[k]);
        if head != EmptyList(meta.Length) && head < meta.Length {
          return;
        }
        k := k + 1;
      }
    }

    /** The split loop of `alloc_blocks`. */
    method SplitDown(p: nat, k: nat, order: nat)
      requires Good()
      requires p in live && blocks[p] == k >= order
      modifies meta, freeLists, this`lists, this`blocks
      ensures Good() && p in blocks && blocks[p] == order
      ensures Agree(old(blocks), blocks, live - {p})
    {
      var cur := k;
      while cur > order
        invariant Good() && order <= cur
        invariant p in live && p in blocks && blocks[p] == cur
        invariant Agree(old(blocks), blocks, live - {p})
      {
        SplitOff(p, cur);
        cur := cur - 1;
      }
    }

    /** Takes a block of the given order. The null pointer is returned exactly when no aligned
        run of 2^order pages is free; otherwise such a run, free until now, becomes live: the
        beginning of the free block listed first among the smallest that are large enough. */
    method AllocBlocks(order: nat) returns (ptr: nat, ghost page: nat)
      requires Good()
      modifies meta, freeLists, this`lists, this`blocks, this`live
      ensures Good()
      ensures ptr == NULL <==> !HasRun(m, old(blocks), old(live), order)
      ensures ptr == NULL ==> LiveBlocks(blocks, live) == LiveBlocks(old(blocks), old(live))
      ensures ptr != NULL ==>
                && ptr == PageAddr(page) && Granted(m, old(blocks), old(live), blocks, live, page, order)
                && BestFit(old(lists), old(blocks), old(live), page, order)
    {
      var k := FindList(order);
      if k > MAX_ORDER {
        EmptyListsMeanNoRun(m, lists, blocks, live, order);
        return NULL, 0;
      }
      FirstIsBestFit(m, lists, blocks, live, k, order);
      var p := Take(k);
      SplitDown(p, k, order);
      GrantedByTaking(m, old(blocks), old(live), blocks, live, p, k, order);
      return PageAddr(p), p;
    }

    /** The tests of `free_blocks` before a merge. The order never exceeds `m`, so the
        source's guard against orders above MAX_ORDER cannot fire. */
    method ProbeBuddy(p: nat, k: nat) returns (mergeable: bool)
      requires Good() && p in live && p in blocks && blocks[p] == k
      ensures k <= m
      ensures mergeable <==> k < m && IsFree(blocks, live, Buddy(p, k), k)
    {
      OrderInRange(m, lists, blocks, live, p);
      var buddy := Buddy(p, k);
      if buddy >= meta.Length {
        return false;
      }
      ProbeIsExact(m, meta[..], freeLists[..], lists, blocks, live, buddy, k);
      return !(meta[buddy].free == 0 || meta[buddy].order != U8(k));
    }

    /** Gives back the live block at `ptr`; no other live block changes. The free block its pages belong
        to from now on, itself or what it was merged into, is the first of its list. */
    method FreeBlocks(ptr: nat, order: nat, ghost page: nat) returns (ghost h: nat)
      requires Good()
      requires page in live && blocks[page] == order && ptr == PageAddr(page)
      modifies meta, freeLists, this`lists, this`blocks, this`live
      ensures Good()
      ensures LiveBlocks(blocks, live) == LiveBlocks(old(blocks), old(live)) - {page}
      ensures FreedFirst(lists, blocks, live, page, h)
    {
      var p := AddrPage(ptr);
      assert p == page by { PageOfAddr(page); }
      var cur := order;
      while true
        invariant Good()
        invariant p in live && p in blocks && blocks[p] == cur
        invariant live - {p} == old(live) - {page}
        invariant Remaining(old(blocks), blocks, p, page)
        invariant Agree(old(blocks), blocks, live - {p})
        decreases m - cur
      {
        var mergeable := ProbeBuddy(p, cur);
        if !mergeable {
          Release(p, cur);
          break;
        }
        ghost var blocks1, p1 := blocks, p;
        p := MergeBuddy(p, cur);
        assert Remaining(old(blocks), blocks, p, page) by { RemainingOn(old(blocks), blocks1, blocks, p1, p, page); }
        cur := cur + 1;
      }
      h := p;
      assert Owns(blocks, p, page) by { NewOwner(m, old(blocks), blocks, p, page); }
      LiveBlocksDrop(old(blocks), blocks, old(live), page);
    }

    /** `GlobalAlloc::alloc`. */
    method Alloc(size: nat, align: nat) returns (ptr: nat, ghost page: nat, ghost order: nat)
      requires Valid()
      modifies meta, freeLists, this`lists, this`blocks, this`live
      ensures Valid() && initialized == old(initialized)
      ensures Fits(Max(size, align), order)
      ensures ptr == NULL <==> !old(initialized) || !HasRun(m, old(blocks), old(live), order)
      ensures ptr == NULL ==> Live() == old(Live())
      ensures ptr != NULL ==>
                && ptr == PageAddr(page) && Granted(m, old(blocks), old(live), blocks, live, page, order)
                && BestFit(old(lists), old(blocks), old(live), page, order)
                && page !in old(Live()) && Live() == old(Live())[page := order]
    {
      var k := SizeToOrder(Max(size, align));
      order := k;
      if !initialized {
        return NULL, 0, k;
      }
      ptr, page := AllocBlocks(k);
    }

    /** `GlobalAlloc::dealloc`. A pointer outside the heap or an oversized layout is ignored;
        otherwise the caller must pass a live block with the layout it was allocated for. */
    method Dealloc(ptr: nat, size: nat, align: nat, ghost page: nat, ghost order: nat)
      requires Valid() && Fits(Max(size, align), order)
      requires initialized && HEAP_START <= ptr < PageAddr(Pow2(m)) && order <= MAX_ORDER ==>
                 ptr == PageAddr(page) && page in Live() && Live()[page] == order
      modifies meta, freeLists, this`lists, this`blocks, this`live
      ensures Valid() && initialized == old(initialized)
      ensures Live() == if initialized && HEAP_START <= ptr < PageAddr(Pow2(m)) && order <= MAX_ORDER
                        then old(Live()) - {page} else old(Live())
      ensures initialized && HEAP_START <= ptr < PageAddr(Pow2(m)) && order <= MAX_ORDER ==>
                exists h :: FreedFirst(lists, blocks, live, page, h)
    {
      if !initialized {
        return;
      }
      if ptr < HEAP_START || ptr >= PageAddr(meta.Length) {
        return;
      }
      var k := SizeToOrder(Max(size, align));
      FitsUnique(Max(size, align), k, order);
      if k > MAX_ORDER {
        return;
      }
      ghost var h := FreeBlocks(ptr, k, page);
    }

    /** `buddy_stats`: what it reports as used is the total size of the live blocks. */
    method Stats() returns (counts: seq<nat>, freeBytes: nat, usedBytes: nat)
      requires Valid()
      ensures !initialized ==> counts == seq(MAX_ORDER + 1, _ => 0) && freeBytes == usedBytes == 0
      ensures initialized ==>
                && |counts| == MAX_ORDER + 1
                && (forall k | 0 <= k <= MAX_ORDER :: counts[k] == |lists[k]|)
                && usedBytes == LivePages(blocks, live) * PAGE_SIZE
                && freeBytes + usedBytes == Pow2(m) * PAGE_SIZE
    {
      if !initialized {
        return seq(MAX_ORDER + 1, _ => 0), 0, 0;
      }
      counts := [];
      var pages := 0;
      for k := 0 to MAX_ORDER + 1
        invariant |counts| == k
        invariant forall j | 0 <= j < k :: counts[j] == |lists[j]|
        invariant pages == FreePages(lists, k)
      {
        var count, listPages := CountList(k, lists[k]);
        counts, pages := counts + [count], pages + listPages;
      }
      freeBytes := pages * PAGE_SIZE;
      usedBytes := meta.Length * PAGE_SIZE - freeBytes;
    }

    /** The walk of `buddy_stats` along one list. */
    method CountList(k: nat, ghost l: seq<nat>) returns (count: nat, pages: nat)
      requires meta.Length < NIL && k < freeLists.Length
      requires Chain(meta[..], l) && freeLists[k] == First(l, EmptyList(meta.Length))
      ensures count == |l| && pages == Bulk(|l|, k)
    {
      count, pages := 0, 0;
      var p := freeLists[k];
      while p != EmptyList(meta.Length) && p < meta.Length
        invariant pages == Bulk(count, k)
        invariant count <= |l|
        invariant p == if count < |l| then l[count] else EmptyList(meta.Length)
        decreases |l| - count
      {
        var next := meta[p].next;
        assert next == After(l, count, NIL) && (next != NIL ==> next < meta.Length) by {
          LinksInRange(meta[..], l, count);
        }
        BulkSucc(count, k);
        count, pages := count + 1, pages + Pow2(k);
        if next == NIL || next >= meta.Length {
          break;
        }
        p := next;
      }
    }
  }

  /** With all lists empty and no page tagged free, page 0 may be listed next. */
  lemma EmptyWellLinked(m: nat, meta: seq<BlockMeta>, heads: seq<nat>, lists: seq<seq<nat>>)
    requires m <= MAX_EXPONENT && |meta| == Pow2(m) && |heads| == |lists| == MAX_ORDER + 1
    requires forall k | 0 <= k <= MAX_ORDER :: lists[k] == [] && heads[k] == EmptyList(|meta|)
    requires forall b | 0 <= b < |meta| :: meta[b].free == 0
    ensures WellLinked(meta, heads, lists, 0)
  {
    Pow2Monotone(m, MAX_EXPONENT);
    assert Pow2(MAX_EXPONENT) == 0x8000;
  }

  /** Every block has order at most `m`, and only the whole heap has its buddy index outside. */
  lemma OrderInRange(m: nat, lists: seq<seq<nat>>, blocks: Blocks, live: set<nat>, p: nat)
    requires Represents(m, lists, blocks, live) && p in blocks
    ensures blocks[p] <= m
    ensures Buddy(p, blocks[p]) >= Pow2(m) <==> blocks[p] == m
  {
    if blocks[p] == m {
      TopBlock(m, p);
    } else {
      BuddyPair(m, p, blocks[p]);
    }
  }

  // ----- alignment of the returned address

  lemma {:induction false} AlignedScale(b: nat, k: nat, j: nat)
    requires Aligned(b, k)
    ensures Aligned(b * Pow2(j), k + j)
  {
    if j > 0 {
      var p := Pow2(j - 1);
      AlignedScale(b, k, j - 1);
      Twice(b, p);
      AlignedTwice(b * p, k + j - 1);
    }
  }

  lemma Twice(b: nat, p: nat)
    ensures b * (2 * p) == 2 * (b * p)
  {
  }

  lemma AlignedTwice(x: nat, k: nat)
    requires Aligned(x, k)
    ensures Aligned(2 * x, k + 1)
  {
    assert (2 * x) % 2 == 0 && (2 * x) / 2 == x;
  }

  lemma {:induction false} AlignedSum(a: nat, b: nat, k: nat)
    requires Aligned(b, k)
    ensures Aligned(a + b, k) <==> Aligned(a, k)
  {
    if k > 0 {
      AlignedSum(a / 2, b / 2, k - 1);
      assert a % 2 == 0 ==> (a + b) / 2 == a / 2 + b / 2;
    }
  }

  lemma HeapStartAligned(a: nat)
    ensures Aligned(HEAP_START, a) <==> a <= 21
  {
    assert Pow2(9) == 0x200 && Pow2(10) == 0x400 && Pow2(12) == 0x1000;
    Pow2Add(12, 9);
    Pow2Add(12, 10);
    AlignedIsMultiple(HEAP_START, 21);
    AlignedIsMultiple(HEAP_START, 22);
    if a <= 21 {
      AlignedDown(HEAP_START, 21, a);
    } else if Aligned(HEAP_START, a) {
      AlignedDown(HEAP_START, a, 22);
    }
  }

  /** A block that holds 2^a bytes spans at least 2^a bytes. */
  lemma OrderCoversAlignment(size: nat, a: nat, order: nat)
    requires size >= Pow2(a) && Fits(size, order)
    ensures a <= order + 12
  {
    assert Pow2(12) == PAGE_SIZE;
    Pow2Add(12, order);
    if a > order + 12 {
      Pow2Monotone(order + 13, a);
    }
  }

  /** The heap starts on a 2 MiB boundary and on no larger power of two, so the address of an
      allocation honours the requested alignment 2^a exactly when a <= 21. */
  lemma AlignmentHonoured(size: nat, a: nat, order: nat, page: nat)
    requires Fits(Max(size, Pow2(a)), order) && Aligned(page, order)
    ensures PageAddr(page) % Pow2(a) == 0 <==> a <= 21
  {
    OrderCoversAlignment(Max(size, Pow2(a)), a, order);
    PageAddrAligned(page, order, a);
    AlignedIsMultiple(PageAddr(page), a);
    HeapStartAligned(a);
  }

  /** The offset of a block in the heap is aligned to its size, so its address is as aligned as the
      start of the heap. */
  lemma PageAddrAligned(page: nat, order: nat, a: nat)
    requires Aligned(page, order) && a <= order + 12
    ensures Aligned(PageAddr(page), a) <==> Aligned(HEAP_START, a)
  {
    assert Pow2(12) == PAGE_SIZE;
    AlignedScale(page, order, 12);
    AlignedDown(page * PAGE_SIZE, order + 12, a);
    AlignedSum(HEAP_START, page * PAGE_SIZE, a);
  }

  lemma Pow2Sixteen()
    ensures Pow2(15) == 0x8000 && Pow2(16) == 0x1_0000
  {
    assert Pow2(7) == 0x80 && Pow2(8) == 0x100;
    Pow2Add(8, 7);
    Pow2Add(8, 8);
  }

  /** The 16-bit links tell all pages of a heap of 2^m pages apart, and from the null link, exactly
      when m is at most MAX_EXPONENT. */
  lemma LinksFitIff(m: nat)
    ensures (forall p: nat | p < Pow2(m) :: U16(p) == p && U16(p) != NIL) <==> m <= MAX_EXPONENT
  {
    Pow2Sixteen();
    if m <= MAX_EXPONENT {
      Pow2Monotone(m, 15);
    } else {
      Pow2Monotone(16, m);
      assert U16(0xFFFF) == NIL;
    }
  }

  /** A fresh heap has an aligned free run of every order up to its own. */
  lemma FreshHeapServes(m: nat, order: nat)
    requires order <= m <= MAX_EXPONENT
    ensures HasRun(m, map[0 := m], {}, order)
  {
    InitialRepresents(m, seq(MAX_ORDER + 1, k => if k == m then [0] else []));
    FreeBlockIsRun(m, map[0 := m], {}, 0, order);
  }

  lemma OrderOfPower(a: nat)
    requires a >= 12
    ensures Fits(Pow2(a), a - 12)
  {
    assert Pow2(12) == PAGE_SIZE;
    Pow2Add(12, a - 12);
    assert a > 12 ==> Pow2(a - 12) == 2 * Pow2(a - 13);
  }

  /** An alignment of more than 2 MiB is granted by every fresh heap that is large enough, at an
      address that does not have it. */
  method MisalignedAllocation(m: nat, a: nat) returns (ptr: nat)
    requires 22 <= a <= m + 12 && m <= MAX_EXPONENT
    ensures ptr != NULL && ptr % Pow2(a) != 0
  {
    var heap := new Allocator(m);
    heap.Init();
    assert heap.live == {};
    OrderOfPower(a);
    FreshHeapServes(m, a - 12);
    var align := Pow2(a);
    ghost var page, order;
    ptr, page, order := heap.Alloc(1, align);
    FitsUnique(align, order, a - 12);
    AlignmentHonoured(1, a, order, page);
  }
}
