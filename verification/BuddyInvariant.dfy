/** The invariant of the buddy allocator and what its four elementary steps (take, split,
    merge, release) keep of it.
  */
module BuddyInvariant {
  import opened Bits
  import opened Sequences
  import opened BuddyLists
  import opened BuddyLayout

  /** Largest heap exponent whose page indices all differ from the 16-bit null link. */
  const MAX_EXPONENT: nat := 15

  /** Pages in `n` blocks of order `k`. */
  ghost function Bulk(n: nat, k: nat): nat {
    if n == 0 then 0 else Pow2(k) + Bulk(n - 1, k)
  }

  /** Pages on the free lists of order below `n`. */
  ghost function FreePages(lists: seq<seq<nat>>, n: nat): nat
    requires n <= |lists|
  {
    if n == 0 then 0 else Bulk(|lists[n - 1]|, n - 1) + FreePages(lists, n - 1)
  }

  ghost function TotalFree(lists: seq<seq<nat>>): nat { FreePages(lists, |lists|) }

  lemma {:induction false} FreePagesUpdate(lists: seq<seq<nat>>, n: nat, k: nat, l: seq<nat>)
    requires k < |lists| && n <= |lists|
    ensures FreePages(lists[k := l], n)
         == FreePages(lists, n) + (if k < n then Bulk(|l|, k) - Bulk(|lists[k]|, k) else 0)
  {
    if n > 0 {
      FreePagesUpdate(lists, n - 1, k, l);
    }
  }

  lemma PushPages(lists: seq<seq<nat>>, k: nat, b: nat)
    requires |lists| == MAX_ORDER + 1 && k <= MAX_ORDER
    ensures TotalFree(lists[k := [b] + lists[k]]) == TotalFree(lists) + Pow2(k)
  {
    FreePagesUpdate(lists, |lists|, k, [b] + lists[k]);
  }

  /** The lists hold exactly the free blocks, each under its order. */
  ghost predicate Listed(lists: seq<seq<nat>>, blocks: Blocks, live: set<nat>)
    requires |lists| == MAX_ORDER + 1
  {
    forall b: nat, k | 0 <= k <= MAX_ORDER :: b in lists[k] <==> IsFree(blocks, live, b, k)
  }

  /** The represented state: the blocks partition the heap, no two free buddies remain,
      the lists name the free blocks, and no page is lost. */
  ghost predicate Represents(m: nat, lists: seq<seq<nat>>, blocks: Blocks, live: set<nat>) {
    && m <= MAX_EXPONENT && |lists| == MAX_ORDER + 1
    && Partition(m, blocks) && live <= blocks.Keys
    && NoFreeBuddies(m, blocks, live)
    && Listed(lists, blocks, live)
    && TotalFree(lists) + LivePages(blocks, live) == Pow2(m)
  }

  /** The allocator invariant. `meta` and `heads` are the stored arrays; the other
      arguments say what they represent. */
  ghost predicate Consistent(m: nat, meta: seq<BlockMeta>, heads: seq<nat>,
                             lists: seq<seq<nat>>, blocks: Blocks, live: set<nat>)
  {
    && |meta| == Pow2(m)
    && WellLinked(meta, heads, lists, -1)
    && Represents(m, lists, blocks, live)
  }

  // ----- the four elementary steps on the represented state

  /** Removing one page from list `k` takes 2^k pages off the lists. */
  lemma UnlinkPages(lists: seq<seq<nat>>, k: nat, i: nat)
    requires |lists| == MAX_ORDER + 1 && k <= MAX_ORDER && i < |lists[k]|
    ensures TotalFree(lists[k := Without(lists[k], i)]) == TotalFree(lists) - Pow2(k)
  {
    FreePagesUpdate(lists, |lists|, k, Without(lists[k], i));
  }

  /** A free block leaves its list and becomes live. */
  lemma TakeKeeps(m: nat, lists: seq<seq<nat>>, blocks: Blocks, live: set<nat>, k: nat, i: nat)
    requires |lists| == MAX_ORDER + 1 && k <= MAX_ORDER && i < |lists[k]|
    requires Listed(lists, blocks, live) && live <= blocks.Keys
    requires forall x, y | 0 <= x < y < |lists[k]| :: lists[k][x] != lists[k][y]
    ensures lists[k][i] in blocks && lists[k][i] !in live && blocks[lists[k][i]] == k
    ensures var b := lists[k][i]; var lists' := lists[k := Without(lists[k], i)];
            && Listed(lists', blocks, live + {b})
            && TotalFree(lists') + LivePages(blocks, live + {b})
               == TotalFree(lists) + LivePages(blocks, live)
  {
    var l := lists[k];
    var b := l[i];
    var lists' := lists[k := Without(l, i)];
    assert b in lists[k];
    assert IsFree(blocks, live, b, k);
    forall c: nat, j | 0 <= j <= MAX_ORDER
      ensures c in lists'[j] <==> IsFree(blocks, live + {b}, c, j)
    {
      WithoutMembers(l, i, c);
      assert c in lists[j] <==> IsFree(blocks, live, c, j);
    }
    UnlinkPages(lists, k, i);
    LivePagesRemove(blocks, live + {b}, b);
    assert live + {b} - {b} == live;
  }

  lemma TakeNoFreeBuddies(m: nat, blocks: Blocks, live: set<nat>, b: nat)
    requires NoFreeBuddies(m, blocks, live)
    ensures NoFreeBuddies(m, blocks, live + {b})
  {
    forall x | x in blocks && x !in live + {b} && blocks[x] < m
      ensures !IsFree(blocks, live + {b}, Buddy(x, blocks[x]), blocks[x])
    {
      assert !IsFree(blocks, live, Buddy(x, blocks[x]), blocks[x]);
    }
  }

  lemma SplitListed(lists: seq<seq<nat>>, blocks: Blocks, live: set<nat>, b: nat, k: nat, c: nat)
    requires |lists| == MAX_ORDER + 1 && k <= MAX_ORDER
    requires Listed(lists, blocks, live)
    requires b in live && b in blocks && blocks[b] == k + 1 && c == b + Pow2(k) && c !in blocks && c !in live
    ensures Listed(lists[k := [c] + lists[k]], Split(blocks, b), live)
  {
    var lists', blocks' := lists[k := [c] + lists[k]], Split(blocks, b);
    forall x: nat, j | 0 <= j <= MAX_ORDER
      ensures x in lists'[j] <==> IsFree(blocks', live, x, j)
    {
      assert x in lists[j] <==> IsFree(blocks, live, x, j);
      assert x in lists'[j] <==> x in lists[j] || (x == c && j == k);
      assert x != b && x != c ==> (x in blocks' <==> x in blocks) && (x in blocks ==> blocks'[x] == blocks[x]);
    }
  }

  /** Changing the order of one live block changes the total by the difference in size. */
  lemma LivePagesUpdate(blocks: Blocks, blocks': Blocks, live: set<nat>, b: nat)
    requires live <= blocks.Keys && live <= blocks'.Keys && b in live
    requires forall x | x in live - {b} :: blocks[x] == blocks'[x]
    ensures LivePages(blocks', live) + Pow2(blocks[b]) == LivePages(blocks, live) + Pow2(blocks'[b])
  {
    LivePagesRemove(blocks, live, b);
    LivePagesRemove(blocks', live, b);
    LivePagesAgree(blocks, blocks', live - {b});
  }

  /** A live block of order `k + 1` gives its upper half `c` to the free list of order `k`. */
  lemma SplitKeeps(lists: seq<seq<nat>>, blocks: Blocks, live: set<nat>, b: nat, k: nat, c: nat)
    requires |lists| == MAX_ORDER + 1 && k <= MAX_ORDER
    requires Listed(lists, blocks, live) && live <= blocks.Keys
    requires b in live && blocks[b] == k + 1 && c == b + Pow2(k) && c !in blocks
    ensures Listed(lists[k := [c] + lists[k]], Split(blocks, b), live)
    ensures TotalFree(lists[k := [c] + lists[k]]) + LivePages(Split(blocks, b), live)
            == TotalFree(lists) + LivePages(blocks, live)
  {
    SplitListed(lists, blocks, live, b, k, c);
    PushPages(lists, k, c);
    LivePagesUpdate(blocks, Split(blocks, b), live, b);
  }

  /** Pages that head no free block are on no list. */
  lemma NotListed(lists: seq<seq<nat>>, blocks: Blocks, live: set<nat>, p: nat)
    requires |lists| == MAX_ORDER + 1 && Listed(lists, blocks, live)
    requires p in live || p !in blocks
    ensures forall k | 0 <= k <= MAX_ORDER :: p !in lists[k]
  {
    forall k | 0 <= k <= MAX_ORDER
      ensures p !in lists[k]
    {
      assert p in lists[k] <==> IsFree(blocks, live, p, k);
    }
  }

  /** A live block `b` of order `k` absorbs the free block `c`, which leaves its list. */
  lemma MergeKeeps(lists: seq<seq<nat>>, blocks: Blocks, live: set<nat>, b: nat, k: nat, c: nat, i: nat)
    requires |lists| == MAX_ORDER + 1 && k <= MAX_ORDER
    requires Listed(lists, blocks, live) && live <= blocks.Keys
    requires b in live && blocks[b] == k && i < |lists[k]| && lists[k][i] == c
    requires forall x, y | 0 <= x < y < |lists[k]| :: lists[k][x] != lists[k][y]
    ensures b != c && c in blocks && c !in live && blocks[c] == k
    ensures var lo := if b < c then b else c;
            && live - {b} + {lo} <= Merge(blocks, b, c).Keys
            && Listed(lists[k := Without(lists[k], i)], Merge(blocks, b, c), live - {b} + {lo})
            && TotalFree(lists[k := Without(lists[k], i)]) + LivePages(Merge(blocks, b, c), live - {b} + {lo})
               == TotalFree(lists) + LivePages(blocks, live)
  {
    var l := lists[k];
    assert c in lists[k];
    assert IsFree(blocks, live, c, k);
    var lo := if b < c then b else c;
    var lists', blocks', live' := lists[k := Without(l, i)], Merge(blocks, b, c), live - {b} + {lo};
    forall x: nat, j | 0 <= j <= MAX_ORDER
      ensures x in lists'[j] <==> IsFree(blocks', live', x, j)
    {
      WithoutMembers(l, i, x);
      assert x in lists[j] <==> IsFree(blocks, live, x, j);
      assert IsFree(blocks', live', x, j) <==> IsFree(blocks, live, x, j) && x != c;
    }
    UnlinkPages(lists, k, i);
    MergePages(blocks, live, b, c);
  }

  lemma MergePages(blocks: Blocks, live: set<nat>, b: nat, c: nat)
    requires live <= blocks.Keys && b in live && c in blocks && c !in live
    ensures var lo := if b < c then b else c;
            && live - {b} + {lo} <= Merge(blocks, b, c).Keys
            && LivePages(Merge(blocks, b, c), live - {b} + {lo}) == LivePages(blocks, live) + Pow2(blocks[b])
  {
    var lo := if b < c then b else c;
    var blocks', live' := Merge(blocks, b, c), live - {b} + {lo};
    LivePagesRemove(blocks, live, b);
    LivePagesRemove(blocks', live', lo);
    assert live' - {lo} == live - {b};
    LivePagesAgree(blocks, blocks', live - {b});
    assert Pow2(blocks[b] + 1) == 2 * Pow2(blocks[b]);
  }

  /** A live block goes on the free list of its order. */
  lemma ReleaseKeeps(m: nat, lists: seq<seq<nat>>, blocks: Blocks, live: set<nat>, b: nat)
    requires |lists| == MAX_ORDER + 1 && m <= MAX_ORDER
    requires Listed(lists, blocks, live) && live <= blocks.Keys
    requires b in live && blocks[b] <= m
    ensures var k := blocks[b]; var lists' := lists[k := [b] + lists[k]]; var live' := live - {b};
            && Listed(lists', blocks, live')
            && TotalFree(lists') + LivePages(blocks, live')
               == TotalFree(lists) + LivePages(blocks, live)
  {
    var k := blocks[b];
    var lists', live' := lists[k := [b] + lists[k]], live - {b};
    forall x: nat, j | 0 <= j <= MAX_ORDER
      ensures x in lists'[j] <==> IsFree(blocks, live', x, j)
    {
      assert x in lists[j] <==> IsFree(blocks, live, x, j);
      assert x in lists'[j] <==> x in lists[j] || (x == b && j == k);
    }
    PushPages(lists, k, b);
    LivePagesRemove(blocks, live, b);
  }

  // ----- the same steps on the whole represented state

  lemma TakeStep(m: nat, lists: seq<seq<nat>>, blocks: Blocks, live: set<nat>, b: nat, k: nat, i: nat)
    requires Represents(m, lists, blocks, live)
    requires k <= MAX_ORDER && i < |lists[k]| && lists[k][i] == b && Distinct(lists[k])
    ensures b in blocks && b !in live && blocks[b] == k
    ensures Represents(m, lists[k := Without(lists[k], i)], blocks, live + {b})
  {
    TakeKeeps(m, lists, blocks, live, k, i);
    TakeNoFreeBuddies(m, blocks, live, b);
  }

  /** `c` is the upper half of block `b`, which has order `k + 1`. */
  lemma SplitStep(m: nat, lists: seq<seq<nat>>, blocks: Blocks, live: set<nat>, b: nat, k: nat, c: nat)
    requires Represents(m, lists, blocks, live)
    requires b in live && b in blocks && blocks[b] == k + 1 && c == b + Pow2(k)
    ensures k < m && c < Pow2(m) && b < Pow2(m) && b != c && c !in blocks
    ensures forall j | 0 <= j <= MAX_ORDER :: b !in lists[j] && c !in lists[j]
    ensures Represents(m, lists[k := [c] + lists[k]], Split(blocks, b), live)
  {
    assert blocks[b] <= m && b + Pow2(blocks[b]) <= Pow2(m);
    assert Pow2(k + 1) == 2 * Pow2(k);
    SplitPartition(m, blocks, b);
    SplitNoFreeBuddies(m, blocks, live, b);
    SplitKeeps(lists, blocks, live, b, k, c);
    NotListed(lists, blocks, live, c);
    NotListed(lists, blocks, live, b);
  }

  /** `c`, at position `i` of its list, is the free buddy of block `b` of order `k`;
      `lo` is the lower of the two. */
  lemma MergeStep(m: nat, lists: seq<seq<nat>>, blocks: Blocks, live: set<nat>,
                  b: nat, k: nat, c: nat, lo: nat, i: nat)
    requires Represents(m, lists, blocks, live)
    requires b in live && b in blocks && blocks[b] == k < m
    requires c == Buddy(b, k) && lo == if b < c then b else c
    requires i < |lists[k]| && lists[k][i] == c && Distinct(lists[k])
    ensures c in blocks && b != c
    ensures Represents(m, lists[k := Without(lists[k], i)], Merge(blocks, b, c), live - {b} + {lo})
  {
    MergeKeeps(lists, blocks, live, b, k, c, i);
    MergePartition(m, blocks, b);
    MergeNoFreeBuddies(m, blocks, live, b, c);
  }

  lemma ReleaseStep(m: nat, lists: seq<seq<nat>>, blocks: Blocks, live: set<nat>, b: nat, k: nat)
    requires Represents(m, lists, blocks, live)
    requires b in live && b in blocks && blocks[b] == k
    requires k < m ==> !IsFree(blocks, live, Buddy(b, k), k)
    ensures k <= m && b < Pow2(m)
    ensures forall j | 0 <= j <= MAX_ORDER :: b !in lists[j]
    ensures Represents(m, lists[k := [b] + lists[k]], blocks, live - {b})
  {
    assert blocks[b] <= m && b + Pow2(blocks[b]) <= Pow2(m);
    ReleaseNoFreeBuddies(m, blocks, live, b);
    ReleaseKeeps(m, lists, blocks, live, b);
    NotListed(lists, blocks, live, b);
  }

  /** The state `init` builds: one free block over the whole heap. */
  lemma InitialRepresents(m: nat, lists: seq<seq<nat>>)
    requires m <= MAX_EXPONENT && |lists| == MAX_ORDER + 1
    requires forall k | 0 <= k <= MAX_ORDER :: lists[k] == if k == m then [0] else []
    ensures Represents(m, lists, map[0 := m], {})
  {
    var blocks := map[0 := m];
    AlignedZero(m);
    forall p: nat | p < Pow2(m)
      ensures HasOwner(blocks, p)
    {
      assert Owns(blocks, 0, p);
    }
    FreePagesOne(lists, m, |lists|);
  }

  lemma {:induction false} FreePagesOne(lists: seq<seq<nat>>, m: nat, n: nat)
    requires m < |lists| && n <= |lists|
    requires forall k | 0 <= k < |lists| :: lists[k] == if k == m then [0] else []
    ensures FreePages(lists, n) == if m < n then Pow2(m) else 0
  {
    if n > 0 {
      FreePagesOne(lists, m, n - 1);
      assert Bulk(1, m) == Pow2(m) + Bulk(0, m);
    }
  }

  /** When the lists from order `o` up are empty, no aligned run of 2^o pages is free. */
  lemma EmptyListsMeanNoRun(m: nat, lists: seq<seq<nat>>, blocks: Blocks, live: set<nat>, o: nat)
    requires Represents(m, lists, blocks, live)
    requires forall j | o <= j <= MAX_ORDER :: lists[j] == []
    ensures !HasRun(m, blocks, live, o)
  {
    RunIffBlock(m, blocks, live, o);
    forall h | h in blocks && h !in live
      ensures blocks[h] < o
    {
      assert IsFree(blocks, live, h, blocks[h]);
      assert h in lists[blocks[h]];
    }
  }

  /** The one-probe test of `free_blocks`: a single metadata entry decides whether
      the page heads a free block of the given order. */
  lemma ProbeIsExact(m: nat, meta: seq<BlockMeta>, heads: seq<nat>, lists: seq<seq<nat>>,
                     blocks: Blocks, live: set<nat>, b: nat, k: nat)
    requires Consistent(m, meta, heads, lists, blocks, live)
    requires b < Pow2(m) && k <= MAX_ORDER
    ensures meta[b].free != 0 && meta[b].order == U8(k) <==> IsFree(blocks, live, b, k)
  {
    ProbeTagged(meta, lists, blocks, live, b, k);
  }

  lemma ProbeTagged(meta: seq<BlockMeta>, lists: seq<seq<nat>>, blocks: Blocks, live: set<nat>, b: nat, k: nat)
    requires |lists| == MAX_ORDER + 1 && b < |meta| && k <= MAX_ORDER
    requires Tagged(meta, lists, -1) && Listed(lists, blocks, live)
    ensures meta[b].free != 0 && meta[b].order == U8(k) <==> IsFree(blocks, live, b, k)
  {
    assert b in lists[k] <==> meta[b].free == 1 && meta[b].order == k;
    assert b in lists[k] <==> IsFree(blocks, live, b, k);
  }

  lemma FirstTwoDiffer(l: seq<nat>)
    requires Distinct(l)
    ensures |l| > 1 ==> l[0] != l[1]
  {
  }

  /** Freeing everything restores the lists that `init` builds: the whole heap as one
      free block of the top order, every other list empty. */
  lemma AllFreedIsInitial(m: nat, meta: seq<BlockMeta>, heads: seq<nat>, lists: seq<seq<nat>>, blocks: Blocks)
    requires Consistent(m, meta, heads, lists, blocks, {})
    ensures blocks == map[0 := m]
    ensures forall k | 0 <= k <= MAX_ORDER :: lists[k] == if k == m then [0] else []
    ensures forall k | 0 <= k <= MAX_ORDER :: heads[k] == if k == m then 0 else EmptyList(Pow2(m))
  {
    AllFreeIsOneBlock(m, blocks);
    forall k | 0 <= k <= MAX_ORDER
      ensures lists[k] == if k == m then [0] else []
    {
      var l := lists[k];
      assert forall i | 0 <= i < |l| :: l[i] in lists[k] && IsFree(blocks, {}, l[i], k);
      assert Chain(meta, l);
      if k == m {
        assert IsFree(blocks, {}, 0, k);
        assert 0 in lists[k];
        FirstTwoDiffer(l);
      }
    }
  }
}
