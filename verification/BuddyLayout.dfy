/** How the heap of the buddy allocator is cut into blocks.

    `blocks` maps the first page of every block, free or live, to its order; `live` holds
    the first pages of the blocks that are handed out. The lemmas say what splitting and
    merging keep, and what the absence of free buddies buys.
  */
module BuddyLayout {
  import opened Bits

  type Blocks = map<nat, nat>

  /** `get_buddy_idx`. */
  function Buddy(b: nat, k: nat): nat { Xor(b, Pow2(k)) }

  ghost predicate Owns(blocks: Blocks, b: nat, p: nat) {
    b in blocks && b <= p < b + Pow2(blocks[b])
  }

  ghost predicate Placed(m: nat, blocks: Blocks) {
    forall b | b in blocks ::
      blocks[b] <= m && Aligned(b, blocks[b]) && b + Pow2(blocks[b]) <= Pow2(m)
  }

  ghost predicate Disjoint(blocks: Blocks) {
    forall b, c | b in blocks && c in blocks && b < c :: b + Pow2(blocks[b]) <= c
  }

  ghost predicate HasOwner(blocks: Blocks, p: nat) {
    exists b :: Owns(blocks, b, p)
  }

  ghost predicate Covering(m: nat, blocks: Blocks) {
    forall p: nat | p < Pow2(m) :: HasOwner(blocks, p)
  }

  /** The blocks cut the 2^m pages into aligned power-of-two pieces. */
  ghost predicate Partition(m: nat, blocks: Blocks) {
    Placed(m, blocks) && Disjoint(blocks) && Covering(m, blocks)
  }

  ghost predicate IsFree(blocks: Blocks, live: set<nat>, b: nat, k: nat) {
    b in blocks && b !in live && blocks[b] == k
  }

  ghost predicate NoFreeBuddies(m: nat, blocks: Blocks, live: set<nat>) {
    forall b {:trigger Buddy(b, blocks[b])} | b in blocks && b !in live && blocks[b] < m ::
      !IsFree(blocks, live, Buddy(b, blocks[b]), blocks[b])
  }

  /** Page `p` belongs to a live block. */
  ghost predicate InUse(blocks: Blocks, live: set<nat>, p: nat) {
    exists b :: b in live && Owns(blocks, b, p)
  }

  /** The 2^k pages from `r` on are all free. */
  ghost predicate RunFree(blocks: Blocks, live: set<nat>, r: nat, k: nat) {
    forall p: nat | r <= p < r + Pow2(k) :: !InUse(blocks, live, p)
  }

  /** The heap contains an aligned run of 2^k free pages. */
  ghost predicate HasRun(m: nat, blocks: Blocks, live: set<nat>, k: nat) {
    exists r: nat :: Aligned(r, k) && r + Pow2(k) <= Pow2(m) && RunFree(blocks, live, r, k)
  }

  /** The handed-out blocks with their orders. */
  ghost function LiveBlocks(blocks: Blocks, live: set<nat>): Blocks
    requires live <= blocks.Keys
  {
    map b | b in live :: blocks[b]
  }

  /** The two block maps give the blocks of `keep` the same orders. */
  ghost predicate Agree(blocks: Blocks, blocks': Blocks, keep: set<nat>) {
    keep <= blocks.Keys && keep <= blocks'.Keys && forall b | b in keep :: blocks[b] == blocks'[b]
  }

  lemma LiveBlocksAdd(blocks: Blocks, blocks': Blocks, live: set<nat>, p: nat, k: nat)
    requires Agree(blocks, blocks', live) && p in blocks' && blocks'[p] == k && p !in live
    ensures LiveBlocks(blocks', live + {p}) == LiveBlocks(blocks, live)[p := k]
  {
  }

  lemma LiveBlocksDrop(blocks: Blocks, blocks': Blocks, live: set<nat>, p: nat)
    requires Agree(blocks, blocks', live - {p}) && live <= blocks.Keys
    ensures LiveBlocks(blocks', live - {p}) == LiveBlocks(blocks, live) - {p}
  {
  }

  // ----- buddies

  /** Below the top order the buddy is a distinct aligned block of the heap, the relation is
      symmetric, and the pair forms one aligned block of the next order. */
  lemma BuddyPair(m: nat, b: nat, k: nat)
    requires Aligned(b, k) && b + Pow2(k) <= Pow2(m) && k < m
    ensures var c := Buddy(b, k); var lo := if b < c then b else c;
            && c != b && Buddy(c, k) == b && Aligned(c, k) && c + Pow2(k) <= Pow2(m)
            && Aligned(lo, k + 1) && (if b < c then c == b + Pow2(k) else b == c + Pow2(k))
            && lo + Pow2(k + 1) <= Pow2(m)
  {
    XorPow2(b, k);
    AlignedPair(b, k);
    var c := Buddy(b, k);
    var lo := if b < c then b else c;
    assert Aligned(lo, k + 1);
    AlignedHalves(lo, k);
    XorPow2(c, k);
    AlignedZero(m);
    AlignedNested(lo, k + 1, 0, m);
  }

  /** The block of the top order is the whole heap and its buddy index lies outside. */
  lemma TopBlock(m: nat, b: nat)
    requires b + Pow2(m) <= Pow2(m)
    ensures b == 0 && Buddy(b, m) == Pow2(m)
  {
    AlignedZero(m + 1);
    AlignedHalves(0, m);
    XorPow2(0, m);
  }

  lemma UniqueOwner(m: nat, blocks: Blocks, b: nat, c: nat, p: nat)
    requires Partition(m, blocks)
    requires Owns(blocks, b, p) && Owns(blocks, c, p)
    ensures b == c
  {
  }

  // ----- splitting and merging

  function Split(blocks: Blocks, b: nat): Blocks
    requires b in blocks && blocks[b] > 0
  {
    blocks[b := blocks[b] - 1][b + Pow2(blocks[b] - 1) := blocks[b] - 1]
  }

  lemma SplitPlaced(m: nat, blocks: Blocks, b: nat)
    requires Placed(m, blocks)
    requires b in blocks && blocks[b] > 0
    ensures Placed(m, Split(blocks, b))
  {
    AlignedHalves(b, blocks[b] - 1);
  }

  lemma SplitDisjoint(blocks: Blocks, b: nat)
    requires Disjoint(blocks)
    requires b in blocks && blocks[b] > 0
    ensures Disjoint(Split(blocks, b))
    ensures b + Pow2(blocks[b] - 1) !in blocks
  {
    var k := blocks[b] - 1;
    var c := b + Pow2(k);
    var blocks' := Split(blocks, b);
    assert Pow2(blocks[b]) == 2 * Pow2(k);
    assert c !in blocks;
    forall x, y | x in blocks' && y in blocks' && x < y
      ensures x + Pow2(blocks'[x]) <= y
    {
      if x == c {
        assert b + Pow2(blocks[b]) <= y;
      } else if y == c {
        if x != b {
          assert x < b;
        }
      } else {
        assert x + Pow2(blocks[x]) <= y;
      }
    }
  }

  lemma SplitCovering(m: nat, blocks: Blocks, b: nat)
    requires Covering(m, blocks)
    requires b in blocks && blocks[b] > 0
    requires b + Pow2(blocks[b] - 1) !in blocks
    ensures Covering(m, Split(blocks, b))
  {
    var k := blocks[b] - 1;
    var c := b + Pow2(k);
    var blocks' := Split(blocks, b);
    forall p: nat | p < Pow2(m)
      ensures HasOwner(blocks', p)
    {
      assert HasOwner(blocks, p);
      var h :| Owns(blocks, h, p);
      if h != b {
        assert Owns(blocks', h, p);
      } else if p < c {
        assert Owns(blocks', b, p);
      } else {
        assert Owns(blocks', c, p);
      }
    }
  }

  lemma SplitPartition(m: nat, blocks: Blocks, b: nat)
    requires Partition(m, blocks)
    requires b in blocks && blocks[b] > 0
    ensures b + Pow2(blocks[b] - 1) !in blocks
    ensures Partition(m, Split(blocks, b))
  {
    SplitPlaced(m, blocks, b);
    SplitDisjoint(blocks, b);
    SplitCovering(m, blocks, b);
  }

  /** Joins block `b` with its buddy `c`. */
  function Merge(blocks: Blocks, b: nat, c: nat): Blocks
    requires b in blocks && c in blocks
  {
    var lo, hi := if b < c then b else c, if b < c then c else b;
    (blocks - {hi})[lo := blocks[b] + 1]
  }

  lemma MergePlaced(m: nat, blocks: Blocks, lo: nat, hi: nat)
    requires Placed(m, blocks) && Disjoint(blocks)
    requires lo in blocks && hi in blocks && blocks[lo] == blocks[hi] < m
    requires hi == lo + Pow2(blocks[lo])
    requires Aligned(lo, blocks[lo] + 1) && lo + Pow2(blocks[lo] + 1) <= Pow2(m)
    ensures Placed(m, Merge(blocks, lo, hi)) && Disjoint(Merge(blocks, lo, hi))
  {
    var blocks' := Merge(blocks, lo, hi);
    assert Pow2(blocks[lo] + 1) == 2 * Pow2(blocks[lo]);
    forall x, y | x in blocks' && y in blocks' && x < y
      ensures x + Pow2(blocks'[x]) <= y
    {
      assert x in blocks && y in blocks && x != hi && y != hi;
      assert x + Pow2(blocks[x]) <= y;
      if x == lo {
        assert hi < y && hi + Pow2(blocks[hi]) <= y;
      }
    }
  }

  lemma MergeCovering(m: nat, blocks: Blocks, lo: nat, hi: nat)
    requires Covering(m, blocks)
    requires lo in blocks && hi in blocks && blocks[lo] == blocks[hi]
    requires hi == lo + Pow2(blocks[lo])
    ensures Covering(m, Merge(blocks, lo, hi))
  {
    var blocks' := Merge(blocks, lo, hi);
    forall p: nat | p < Pow2(m)
      ensures HasOwner(blocks', p)
    {
      assert HasOwner(blocks, p);
      var h :| Owns(blocks, h, p);
      if h == lo || h == hi {
        assert Owns(blocks', lo, p);
      } else {
        assert Owns(blocks', h, p);
      }
    }
  }

  lemma MergePartition(m: nat, blocks: Blocks, b: nat)
    requires Partition(m, blocks)
    requires b in blocks && blocks[b] < m
    requires Buddy(b, blocks[b]) in blocks && blocks[Buddy(b, blocks[b])] == blocks[b]
    ensures Partition(m, Merge(blocks, b, Buddy(b, blocks[b])))
  {
    var c := Buddy(b, blocks[b]);
    BuddyPair(m, b, blocks[b]);
    var lo, hi := if b < c then b else c, if b < c then c else b;
    assert Merge(blocks, b, c) == Merge(blocks, lo, hi);
    MergePlaced(m, blocks, lo, hi);
    MergeCovering(m, blocks, lo, hi);
  }

  /** Splitting a live block leaves its free upper half with a live buddy. */
  lemma SplitNoFreeBuddies(m: nat, blocks: Blocks, live: set<nat>, b: nat)
    requires Partition(m, blocks) && NoFreeBuddies(m, blocks, live)
    requires b in live && b in blocks && blocks[b] > 0
    ensures NoFreeBuddies(m, Split(blocks, b), live)
  {
    var k := blocks[b] - 1;
    var c := b + Pow2(k);
    var blocks' := Split(blocks, b);
    AlignedHalves(b, k);
    XorPow2(c, k);
    assert Buddy(c, k) == b;
    forall x | x in blocks' && x !in live && blocks'[x] < m
      ensures !IsFree(blocks', live, Buddy(x, blocks'[x]), blocks'[x])
    {
      if x != c {
        OtherBuddies(m, blocks, live, b, x);
      }
    }
  }

  lemma OtherBuddies(m: nat, blocks: Blocks, live: set<nat>, b: nat, x: nat)
    requires Placed(m, blocks) && NoFreeBuddies(m, blocks, live)
    requires b in live && b in blocks && blocks[b] > 0
    requires Buddy(b + Pow2(blocks[b] - 1), blocks[b] - 1) == b
    requires x in blocks && x !in live && blocks[x] < m && x != b + Pow2(blocks[b] - 1)
    ensures !IsFree(Split(blocks, b), live, Buddy(x, blocks[x]), blocks[x])
  {
    BuddyPair(m, x, blocks[x]);
    assert !IsFree(blocks, live, Buddy(x, blocks[x]), blocks[x]);
  }

  lemma MergeNoFreeBuddies(m: nat, blocks: Blocks, live: set<nat>, b: nat, c: nat)
    requires NoFreeBuddies(m, blocks, live)
    requires b in blocks && c in blocks && b in live && c !in live && b != c
    ensures var lo := if b < c then b else c;
            NoFreeBuddies(m, Merge(blocks, b, c), live - {b} + {lo})
  {
    var lo, hi := if b < c then b else c, if b < c then c else b;
    var blocks' := Merge(blocks, b, c);
    var live' := live - {b} + {lo};
    forall x | x in blocks' && x !in live' && blocks'[x] < m
      ensures !IsFree(blocks', live', Buddy(x, blocks'[x]), blocks'[x])
    {
      assert x != lo && x != hi && x in blocks && x !in live && blocks[x] == blocks'[x];
      assert !IsFree(blocks, live, Buddy(x, blocks[x]), blocks[x]);
    }
  }

  /** Releasing a block whose buddy is not free creates no pair of free buddies. */
  lemma ReleaseNoFreeBuddies(m: nat, blocks: Blocks, live: set<nat>, b: nat)
    requires Partition(m, blocks) && NoFreeBuddies(m, blocks, live)
    requires b in live && b in blocks
    requires blocks[b] < m ==> !IsFree(blocks, live, Buddy(b, blocks[b]), blocks[b])
    ensures NoFreeBuddies(m, blocks, live - {b})
  {
    var live' := live - {b};
    forall x | x in blocks && x !in live' && blocks[x] < m
      ensures !IsFree(blocks, live', Buddy(x, blocks[x]), blocks[x])
    {
      var y := Buddy(x, blocks[x]);
      BuddyPair(m, x, blocks[x]);
      assert !IsFree(blocks, live, y, blocks[x]);
    }
  }

  // ----- completeness

  /** Inside a free aligned run of 2^o pages every block of order below `o` has order at least `j`. */
  lemma {:induction false} RunHasNoSmallBlock(m: nat, blocks: Blocks, live: set<nat>, r: nat, o: nat, j: nat, h: nat)
    requires Partition(m, blocks) && NoFreeBuddies(m, blocks, live) && live <= blocks.Keys
    requires Aligned(r, o) && r + Pow2(o) <= Pow2(m) && RunFree(blocks, live, r, o)
    requires j <= o && o <= m
    requires h in blocks && r <= h < r + Pow2(o) && blocks[h] < o
    ensures blocks[h] >= j
    decreases j
  {
    if j > 0 {
      RunHasNoSmallBlock(m, blocks, live, r, o, j - 1, h);
      if blocks[h] == j - 1 {
        var k := blocks[h];
        var c := Buddy(h, k);
        BuddyPair(m, h, k);
        var lo := if h < c then h else c;
        PairInRun(m, r, o, h, k);
        assert HasOwner(blocks, c);
        var g :| Owns(blocks, g, c);
        assert Owns(blocks, h, h);
        assert !InUse(blocks, live, h) && !InUse(blocks, live, c);
        assert g !in live && h !in live;
        if blocks[g] > k {
          // a larger block over the buddy also covers `h`
          AlignedCovers(lo, k + 1, g, blocks[g], c);
        } else {
          AlignedStart(c, k, g, blocks[g]);
          assert g == c;
          RunHasNoSmallBlock(m, blocks, live, r, o, j - 1, c);
        }
        assert false;
      }
    }
  }

  /** The buddy of a small block inside an aligned run lies in the run. */
  lemma PairInRun(m: nat, r: nat, o: nat, h: nat, k: nat)
    requires Aligned(r, o) && Aligned(h, k) && k < o <= m
    requires r <= h < r + Pow2(o) && r + Pow2(o) <= Pow2(m)
    requires h + Pow2(k) <= Pow2(m)
    ensures r <= Buddy(h, k) < r + Pow2(o)
  {
    BuddyPair(m, h, k);
    var c := Buddy(h, k);
    var lo := if h < c then h else c;
    AlignedCovers(r, o, lo, k + 1, h);
  }

  /** Two aligned blocks that share page `p`: the smaller lies within the larger. */
  lemma AlignedCovers(a: nat, k: nat, c: nat, j: nat, p: nat)
    requires Aligned(a, k) && Aligned(c, j)
    requires a <= p < a + Pow2(k) && c <= p < c + Pow2(j)
    ensures k <= j ==> c <= a && a + Pow2(k) <= c + Pow2(j)
    ensures j <= k ==> a <= c && c + Pow2(j) <= a + Pow2(k)
  {
    if k <= j {
      if a < c {
        Straddle(a, k, c, j);
      } else {
        AlignedNested(a, k, c, j);
      }
    }
    if j <= k {
      if c < a {
        Straddle(c, j, a, k);
      } else {
        AlignedNested(c, j, a, k);
      }
    }
  }

  /** A smaller aligned block that starts before a larger one ends before it. */
  lemma {:induction false} Straddle(a: nat, k: nat, c: nat, j: nat)
    requires Aligned(a, k) && Aligned(c, j) && k <= j && a < c
    ensures a + Pow2(k) <= c
  {
    if k > 0 {
      Straddle(a / 2, k - 1, c / 2, j - 1);
    }
  }

  /** An aligned block no larger than the alignment of `c` and covering `c` starts at `c`. */
  lemma AlignedStart(c: nat, k: nat, g: nat, j: nat)
    requires Aligned(c, k) && Aligned(g, j) && j <= k
    requires g <= c < g + Pow2(j)
    ensures g == c
  {
    if g < c {
      Straddle(g, j, c, k);
    }
  }

  /** A free aligned run is covered by one free block that is at least as large. */
  lemma FreeRunHasBlock(m: nat, blocks: Blocks, live: set<nat>, r: nat, o: nat) returns (h: nat)
    requires Partition(m, blocks) && NoFreeBuddies(m, blocks, live) && live <= blocks.Keys
    requires Aligned(r, o) && r + Pow2(o) <= Pow2(m) && RunFree(blocks, live, r, o)
    requires o <= m
    ensures h in blocks && h !in live && blocks[h] >= o && Owns(blocks, h, r)
  {
    assert HasOwner(blocks, r);
    h :| Owns(blocks, h, r);
    assert !InUse(blocks, live, r);
    if blocks[h] < o {
      AlignedStart(r, o, h, blocks[h]);
      RunHasNoSmallBlock(m, blocks, live, r, o, o, h);
      assert false;
    }
  }

  lemma {:induction false} Pow2Order(j: nat, k: nat)
    requires Pow2(j) <= Pow2(k)
    ensures j <= k
  {
    if j > k {
      Pow2Monotone(k + 1, j);
    }
  }

  /** Completeness and its converse: an aligned run of 2^o free pages exists
      exactly when some free block has order at least `o`. */
  lemma RunIffBlock(m: nat, blocks: Blocks, live: set<nat>, o: nat)
    requires Partition(m, blocks) && NoFreeBuddies(m, blocks, live) && live <= blocks.Keys
    ensures HasRun(m, blocks, live, o) <==> exists h :: h in blocks && h !in live && blocks[h] >= o
  {
    if HasRun(m, blocks, live, o) {
      var r: nat :| Aligned(r, o) && r + Pow2(o) <= Pow2(m) && RunFree(blocks, live, r, o);
      Pow2Order(o, m);
      var h := FreeRunHasBlock(m, blocks, live, r, o);
    }
    if h :| h in blocks && h !in live && blocks[h] >= o {
      FreeBlockIsRun(m, blocks, live, h, o);
    }
  }

  lemma FreeBlockIsRun(m: nat, blocks: Blocks, live: set<nat>, h: nat, o: nat)
    requires Partition(m, blocks) && h in blocks && h !in live && blocks[h] >= o
    ensures Aligned(h, o) && h + Pow2(o) <= Pow2(m) && RunFree(blocks, live, h, o)
    ensures HasRun(m, blocks, live, o)
  {
    AlignedDown(h, blocks[h], o);
    Pow2Monotone(o, blocks[h]);
    forall p: nat | h <= p < h + Pow2(o)
      ensures !InUse(blocks, live, p)
    {
      assert Owns(blocks, h, p);
      if InUse(blocks, live, p) {
        var g :| g in live && Owns(blocks, g, p);
        UniqueOwner(m, blocks, g, h, p);
      }
    }
  }

  lemma {:induction false} AlignedDown(b: nat, k: nat, j: nat)
    requires Aligned(b, k) && j <= k
    ensures Aligned(b, j)
    decreases k
  {
    if j < k {
      AlignedHalves(b, k - 1);
      AlignedDown(b, k - 1, j);
    }
  }

  /** With nothing live the heap is one free block of the top order, as after `init`. */
  lemma AllFreeIsOneBlock(m: nat, blocks: Blocks)
    requires Partition(m, blocks) && NoFreeBuddies(m, blocks, {})
    ensures blocks == map[0 := m]
  {
    AlignedZero(m);
    assert RunFree(blocks, {}, 0, m);
    var h := FreeRunHasBlock(m, blocks, {}, 0, m);
    Pow2Monotone(m, blocks[h]);
    assert h == 0 && blocks[0] == m;
    forall b | b in blocks
      ensures b == 0
    {
      assert b > 0 ==> Pow2(m) <= b;
    }
  }

  // ----- page accounting

  /** Total number of pages in the live blocks. */
  ghost function LivePages(blocks: Blocks, live: set<nat>): nat
    requires live <= blocks.Keys
  {
    if live == {} then 0
    else
      var b :| b in live;
      Pow2(blocks[b]) + LivePages(blocks, live - {b})
  }

  lemma {:induction false} LivePagesRemove(blocks: Blocks, live: set<nat>, b: nat)
    requires live <= blocks.Keys && b in live
    ensures LivePages(blocks, live) == Pow2(blocks[b]) + LivePages(blocks, live - {b})
    decreases |live|
  {
    var c :| c in live && LivePages(blocks, live) == Pow2(blocks[c]) + LivePages(blocks, live - {c});
    if c != b {
      LivePagesRemove(blocks, live - {c}, b);
      LivePagesRemove(blocks, live - {b}, c);
      assert live - {c} - {b} == live - {b} - {c};
    }
  }

  /** Only the orders of the live blocks matter. */
  lemma {:induction false} LivePagesAgree(blocks: Blocks, blocks': Blocks, live: set<nat>)
    requires live <= blocks.Keys && live <= blocks'.Keys
    requires forall b | b in live :: blocks[b] == blocks'[b]
    ensures LivePages(blocks, live) == LivePages(blocks', live)
    decreases |live|
  {
    if live != {} {
      var b :| b in live;
      LivePagesRemove(blocks, live, b);
      LivePagesRemove(blocks', live, b);
      LivePagesAgree(blocks, blocks', live - {b});
    }
  }
}
