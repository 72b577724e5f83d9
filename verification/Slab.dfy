/** One slab cache and its pages (kernel/src/mm/slab.rs). The free objects of a slab form a
    list whose links are stored in the objects themselves; slabs with free objects are on the
    partial list, exhausted ones on the full list.

    Memory is the array of bytes of all slab pages; offset 0 is the first page. The fourteen
    header bytes of each page are held apart, as records.
  */
module Slab {
  import opened Basics
  import opened Bits
  import opened SlabLists
  import opened Counting

  const HEADER_SIZE: nat := 14
  /** End mark of the free list inside a slab. */
  const END: nat := 0xFFFF
  const NULL: nat := 0

  type Memory = seq<nat>

  /** Objects per slab. */
  function PerSlab(size: nat): nat
    requires size > 0
  {
    (PAGE_SIZE - HEADER_SIZE) / size
  }

  /** Offset of object `i` of slab `s`. */
  function Offset(size: nat, s: nat, i: nat): nat
    requires s > 0
  {
    (s - 1) * PAGE_SIZE + HEADER_SIZE + i * size
  }

  ghost predicate IsObject(size: nat, pages: nat, s: nat, i: nat) {
    size > 0 && 0 < s <= pages && i < PerSlab(size)
  }

  // ----- addresses

  lemma PerSlabFits(size: nat, i: nat)
    requires size > 0 && i < PerSlab(size)
    ensures HEADER_SIZE + i * size + size <= PAGE_SIZE
  {
    var n := PerSlab(size);
    assert n * size <= PAGE_SIZE - HEADER_SIZE;
    assert (i + 1) * size <= n * size by { MulMonotone(i + 1, n, size); }
    assert (i + 1) * size == i * size + size;
  }

  /** Exactly the objects that fit behind the header belong to a slab. */
  lemma FitsIff(size: nat, i: nat)
    requires size > 0
    ensures i < PerSlab(size) <==> HEADER_SIZE + (i + 1) * size <= PAGE_SIZE
  {
    var n, room := PerSlab(size), PAGE_SIZE - HEADER_SIZE;
    assert n * size <= room < (n + 1) * size;
    if i < n {
      MulMonotone(i + 1, n, size);
    } else {
      MulMonotone(n + 1, i + 1, size);
    }
  }

  /** So the objects fill the page up to less than one more. */
  lemma ObjectsFillPage(size: nat)
    requires size > 0
    ensures HEADER_SIZE + PerSlab(size) * size <= PAGE_SIZE < HEADER_SIZE + (PerSlab(size) + 1) * size
  {
    FitsIff(size, PerSlab(size));
    if PerSlab(size) > 0 {
      FitsIff(size, PerSlab(size) - 1);
    }
  }

  lemma MulMonotone(x: nat, y: nat, d: nat)
    requires x <= y
    ensures x * d <= y * d
  {
  }

  /** An object lies inside its page, behind the header. */
  lemma ObjectInPage(size: nat, pages: nat, s: nat, i: nat)
    requires IsObject(size, pages, s, i)
    ensures (s - 1) * PAGE_SIZE + HEADER_SIZE <= Offset(size, s, i)
    ensures Offset(size, s, i) + size <= s * PAGE_SIZE <= pages * PAGE_SIZE
  {
    PerSlabFits(size, i);
  }

  /** Since the header takes fourteen bytes, no object of a size divisible by four is aligned
      to four bytes. */
  lemma NeverWordAligned(size: nat, pages: nat, base: nat, s: nat, i: nat)
    requires IsObject(size, pages, s, i) && base % PAGE_SIZE == 0 && size % 4 == 0
    ensures (base + Offset(size, s, i)) % 4 == 2
  {
    var b, q := base / PAGE_SIZE, size / 4;
    assert base == 4 * (1024 * b) && size == 4 * q;
    Quadruple(i, size, q);
    ModUnique(base + Offset(size, s, i), 4, 1024 * b + 1024 * (s - 1) + i * q + 3, 2);
  }

  lemma Quadruple(i: nat, size: nat, q: nat)
    requires size == 4 * q
    ensures i * size == 4 * (i * q)
  {
  }

  /** Different objects do not overlap. */
  lemma ObjectsDisjoint(size: nat, pages: nat, s: nat, i: nat, t: nat, j: nat)
    requires IsObject(size, pages, s, i) && IsObject(size, pages, t, j) && (s, i) != (t, j)
    ensures Offset(size, s, i) + size <= Offset(size, t, j) || Offset(size, t, j) + size <= Offset(size, s, i)
  {
    ObjectInPage(size, pages, s, i);
    ObjectInPage(size, pages, t, j);
    if s == t {
      if i < j {
        MulMonotone(i + 1, j, size);
        assert (i + 1) * size == i * size + size;
      } else {
        MulMonotone(j + 1, i, size);
        assert (j + 1) * size == j * size + size;
      }
    }
  }

  lemma QuotientExact(i: nat, size: nat)
    requires size > 0
    ensures (i * size) / size == i
  {
    ModUnique(i * size, size, i, 0);
  }

  // ----- memory

  function ReadU16(mem: Memory, a: nat): nat
    requires a + 1 < |mem|
  {
    mem[a] + 0x100 * mem[a + 1]
  }

  function WriteU16(mem: Memory, a: nat, v: nat): (r: Memory)
    requires a + 1 < |mem|
    ensures |r| == |mem|
  {
    mem[a := v % 0x100][a + 1 := v / 0x100]
  }

  /** Outside [a, a + n) the memories agree. */
  ghost predicate SameOutside(mem: Memory, mem': Memory, a: nat, n: nat) {
    |mem| == |mem'| && forall x | 0 <= x < |mem| && !(a <= x < a + n) :: mem[x] == mem'[x]
  }

  // ----- the free list inside one slab

  /** Following the links stored in the objects of slab `s` from `head` visits exactly `chain`. */
  ghost predicate FreeChain(size: nat, pages: nat, mem: Memory, s: nat, head: nat, chain: seq<nat>)
    requires 2 <= size && |mem| == pages * PAGE_SIZE
    decreases |chain|
  {
    if chain == [] then head == END
    else
      && head == chain[0] && IsObject(size, pages, s, head)
      && (ObjectInPage(size, pages, s, head);
          FreeChain(size, pages, mem, s, ReadU16(mem, Offset(size, s, head)), chain[1..]))
  }

  /** Slab `s` has header `h` and exactly the free objects `chain`. */
  ghost predicate SlabOk(size: nat, pages: nat, mem: Memory, s: nat, h: Header, chain: seq<nat>)
    requires 2 <= size && |mem| == pages * PAGE_SIZE
  {
    && h.total == PerSlab(size) && h.objectSize == size && h.cacheIdx == 0
    && h.freeObjects == |chain|
    && (forall i, j | 0 <= i < j < |chain| :: chain[i] != chain[j])
    && (forall i | i in chain :: i < PerSlab(size))
    && FreeChain(size, pages, mem, s, h.freeIndex, chain)
  }

  /** Changes inside one object leave every free list alone that the object is not on. */
  lemma {:induction false} ChainFrame(size: nat, pages: nat, mem: Memory, mem': Memory, s: nat, head: nat,
                                      chain: seq<nat>, t: nat, j: nat)
    requires 2 <= size && |mem| == |mem'| == pages * PAGE_SIZE
    requires FreeChain(size, pages, mem, s, head, chain)
    requires IsObject(size, pages, t, j) && (s == t ==> j !in chain)
    requires SameOutside(mem, mem', Offset(size, t, j), size)
    ensures FreeChain(size, pages, mem', s, head, chain)
    decreases |chain|
  {
    if chain != [] {
      ObjectInPage(size, pages, s, head);
      ObjectsDisjoint(size, pages, s, head, t, j);
      ChainFrame(size, pages, mem, mem', s, ReadU16(mem, Offset(size, s, head)), chain[1..], t, j);
    }
  }

  /** Taking the first free object. */
  lemma TakeObject(size: nat, pages: nat, mem: Memory, s: nat, h: Header, chain: seq<nat>)
    requires 2 <= size && |mem| == pages * PAGE_SIZE
    requires SlabOk(size, pages, mem, s, h, chain) && chain != []
    ensures h.freeIndex == chain[0] && IsObject(size, pages, s, chain[0])
    ensures Offset(size, s, chain[0]) + 1 < |mem|
    ensures SlabOk(size, pages, mem, s,
                   h.(freeIndex := ReadU16(mem, Offset(size, s, chain[0])), freeObjects := h.freeObjects - 1),
                   chain[1..])
    ensures chain[0] !in chain[1..]
  {
    ObjectInPage(size, pages, s, chain[0]);
    assert forall i | i in chain[1..] :: i in chain;
  }

  /** Putting an object back in front. */
  lemma PutObject(size: nat, pages: nat, mem: Memory, s: nat, h: Header, chain: seq<nat>, i: nat)
    requires 2 <= size && |mem| == pages * PAGE_SIZE
    requires SlabOk(size, pages, mem, s, h, chain)
    requires IsObject(size, pages, s, i) && i !in chain
    ensures Offset(size, s, i) + 1 < |mem|
    ensures var mem' := WriteU16(mem, Offset(size, s, i), h.freeIndex);
            && SameOutside(mem, mem', Offset(size, s, i), size)
            && SlabOk(size, pages, mem', s, h.(freeIndex := i, freeObjects := h.freeObjects + 1), [i] + chain)
  {
    ObjectInPage(size, pages, s, i);
    var mem' := WriteU16(mem, Offset(size, s, i), h.freeIndex);
    ChainFrame(size, pages, mem, mem', s, h.freeIndex, chain, s, i);
    assert ([i] + chain)[1..] == chain;
    assert ReadU16(mem', Offset(size, s, i)) == h.freeIndex;
  }

  /** Slabs that do not own the changed object are as before. */
  lemma OtherSlabOk(size: nat, pages: nat, mem: Memory, mem': Memory, s: nat, h: Header, chain: seq<nat>,
                    t: nat, j: nat)
    requires 2 <= size && |mem| == |mem'| == pages * PAGE_SIZE
    requires SlabOk(size, pages, mem, s, h, chain)
    requires IsObject(size, pages, t, j) && (s == t ==> j !in chain)
    requires SameOutside(mem, mem', Offset(size, t, j), size)
    ensures SlabOk(size, pages, mem', s, h, chain)
  {
    ChainFrame(size, pages, mem, mem', s, h.freeIndex, chain, t, j);
  }

  /** The list `create_slab` builds: all objects in order. */
  function Ascending(i: nat, n: nat): (r: seq<nat>)
    requires i <= n
    ensures |r| == n - i && forall j | 0 <= j < |r| :: r[j] == i + j
    decreases n - i
  {
    if i == n then [] else [i] + Ascending(i + 1, n)
  }

  lemma {:induction false} FreshChain(size: nat, pages: nat, mem: Memory, s: nat, i: nat)
    requires 2 <= size && |mem| == pages * PAGE_SIZE && 0 < s <= pages && i <= PerSlab(size)
    requires forall j | 0 <= j < PerSlab(size) ::
               Offset(size, s, j) + 1 < |mem|
               && ReadU16(mem, Offset(size, s, j)) == if j + 1 < PerSlab(size) then j + 1 else END
    ensures FreeChain(size, pages, mem, s, if i < PerSlab(size) then i else END, Ascending(i, PerSlab(size)))
    decreases PerSlab(size) - i
  {
    if i < PerSlab(size) {
      ObjectInPage(size, pages, s, i);
      FreshChain(size, pages, mem, s, i + 1);
      assert Ascending(i, PerSlab(size))[1..] == Ascending(i + 1, PerSlab(size));
    }
  }

  // ----- all slabs

  ghost predicate SlabsOk(size: nat, pages: nat, mem: Memory, hs: seq<Header>, chains: seq<seq<nat>>, used: nat) {
    && 2 <= size && PerSlab(size) >= 1 && |mem| == pages * PAGE_SIZE
    && |hs| == |chains| == pages + 1 && used <= pages < END
    && (forall s | 1 <= s <= used :: SlabOk(size, pages, mem, s, hs[s], chains[s]))
  }

  /** Every slab is on exactly one list: on `full` when it has no free object, else on `partial`. */
  ghost predicate Sorted(hs: seq<Header>, chains: seq<seq<nat>>, used: nat, partial: seq<nat>, full: seq<nat>) {
    && |hs| == |chains| && used < |hs|
    && Linked(hs, partial) && Linked(hs, full)
    && (forall s: nat :: s in partial <==> 1 <= s <= used && chains[s] != [])
    && (forall s: nat :: s in full <==> 1 <= s <= used && chains[s] == [])
  }

  /** The objects in the hands of callers: slab and index. */
  ghost function LiveObjects(size: nat, chains: seq<seq<nat>>, used: nat): set<(nat, nat)>
    requires size > 0 && used < |chains|
  {
    set s: nat, i: nat | 1 <= s <= used && i < PerSlab(size) && i !in chains[s] :: (s, i)
  }

  /** Live objects lie in the used pages behind the headers and do not overlap. */
  lemma LiveObjectsApart(size: nat, pages: nat, mem: Memory, hs: seq<Header>, chains: seq<seq<nat>>, used: nat,
                         x: (nat, nat), y: (nat, nat))
    requires SlabsOk(size, pages, mem, hs, chains, used)
    requires x in LiveObjects(size, chains, used) && y in LiveObjects(size, chains, used)
    ensures (x.0 - 1) * PAGE_SIZE + HEADER_SIZE <= Offset(size, x.0, x.1)
    ensures Offset(size, x.0, x.1) + size <= x.0 * PAGE_SIZE <= used * PAGE_SIZE
    ensures x == y || Offset(size, x.0, x.1) + size <= Offset(size, y.0, y.1)
            || Offset(size, y.0, y.1) + size <= Offset(size, x.0, x.1)
  {
    ObjectInPage(size, pages, x.0, x.1);
    if x != y {
      ObjectsDisjoint(size, pages, x.0, x.1, y.0, y.1);
    }
  }

  ghost function LiveIn(size: nat, chain: seq<nat>): set<nat>
    requires size > 0
  {
    set i: nat | i < PerSlab(size) && i !in chain
  }

  /** Live and free objects of a slab add up to its total. */
  lemma ObjectsAddUp(size: nat, pages: nat, mem: Memory, hs: seq<Header>, chains: seq<seq<nat>>, used: nat, s: nat)
    requires SlabsOk(size, pages, mem, hs, chains, used) && 1 <= s <= used
    ensures |LiveIn(size, chains[s])| + hs[s].freeObjects == hs[s].total
  {
    var chain := chains[s];
    assert SlabOk(size, pages, mem, s, hs[s], chain);
    var free := set i | i in chain;
    DistinctSize(chain, free);
    RangeSize(0, PerSlab(size), LiveIn(size, chain) + free);
    assert LiveIn(size, chain) !! free;
  }

  /** Every place for an object in the first `pages` pages is in use. */
  ghost predicate AllTaken(size: nat, pages: nat, live: set<(nat, nat)>) {
    forall s: nat, i: nat | 1 <= s <= pages && HEADER_SIZE + (i + 1) * size <= PAGE_SIZE :: (s, i) in live
  }

  /** No slab has a free object and no page is left exactly when every place is in use. */
  lemma ExhaustedIff(size: nat, pages: nat, mem: Memory, hs: seq<Header>, chains: seq<seq<nat>>, used: nat,
                     partial: seq<nat>, full: seq<nat>)
    requires SlabsOk(size, pages, mem, hs, chains, used) && Sorted(hs, chains, used, partial, full)
    ensures partial == [] && used >= pages <==> used == pages && AllTaken(size, pages, LiveObjects(size, chains, used))
  {
    var live := LiveObjects(size, chains, used);
    if partial == [] && used >= pages {
      forall s: nat, i: nat | 1 <= s <= pages && HEADER_SIZE + (i + 1) * size <= PAGE_SIZE
        ensures (s, i) in live
      {
        FitsIff(size, i);
        assert s !in partial;
      }
    }
    if used == pages && partial != [] {
      var s := partial[0];
      assert s in partial && SlabOk(size, pages, mem, s, hs[s], chains[s]);
      var i := chains[s][0];
      assert i in chains[s];
      FitsIff(size, i);
      assert (s, i) !in live;
    }
  }

  lemma TakeSlabs(size: nat, pages: nat, mem: Memory, hs: seq<Header>, chains: seq<seq<nat>>, used: nat, s: nat)
    requires SlabsOk(size, pages, mem, hs, chains, used)
    requires 1 <= s <= used && chains[s] != []
    ensures var i := chains[s][0]; var a := Offset(size, s, i);
            && hs[s].freeIndex == i && IsObject(size, pages, s, i) && a + 1 < |mem|
            && hs[s].freeObjects > 0 && i !in chains[s][1..]
            && SlabsOk(size, pages, mem,
                       hs[s := hs[s].(freeIndex := ReadU16(mem, a), freeObjects := hs[s].freeObjects - 1)],
                       chains[s := chains[s][1..]], used)
  {
    assert SlabOk(size, pages, mem, s, hs[s], chains[s]);
    TakeObject(size, pages, mem, s, hs[s], chains[s]);
  }

  lemma PutSlabs(size: nat, pages: nat, mem: Memory, hs: seq<Header>, chains: seq<seq<nat>>, used: nat, s: nat, i: nat)
    requires SlabsOk(size, pages, mem, hs, chains, used)
    requires 1 <= s <= used && i < PerSlab(size) && i !in chains[s]
    ensures var a := Offset(size, s, i);
            && a + 1 < |mem|
            && SlabsOk(size, pages, WriteU16(mem, a, hs[s].freeIndex),
                       hs[s := hs[s].(freeIndex := i, freeObjects := hs[s].freeObjects + 1)],
                       chains[s := [i] + chains[s]], used)
  {
    assert SlabOk(size, pages, mem, s, hs[s], chains[s]);
    PutObject(size, pages, mem, s, hs[s], chains[s], i);
    var mem' := WriteU16(mem, Offset(size, s, i), hs[s].freeIndex);
    forall t | 1 <= t <= used && t != s
      ensures SlabOk(size, pages, mem', t, hs[t], chains[t])
    {
      OtherSlabOk(size, pages, mem, mem', t, hs[t], chains[t], s, i);
    }
  }

  /** What is not a free object may be overwritten by its owner. */
  lemma WriteSlabs(size: nat, pages: nat, mem: Memory, mem': Memory, hs: seq<Header>, chains: seq<seq<nat>>, used: nat,
                   s: nat, i: nat)
    requires SlabsOk(size, pages, mem, hs, chains, used)
    requires (s, i) in LiveObjects(size, chains, used)
    requires SameOutside(mem, mem', Offset(size, s, i), size)
    ensures SlabsOk(size, pages, mem', hs, chains, used)
  {
    forall t | 1 <= t <= used
      ensures SlabOk(size, pages, mem', t, hs[t], chains[t])
    {
      OtherSlabOk(size, pages, mem, mem', t, hs[t], chains[t], s, i);
    }
  }

  /** Links between slabs do not matter for their objects. */
  lemma SameContentSlabs(size: nat, pages: nat, mem: Memory, hs: seq<Header>, hs': seq<Header>,
                         chains: seq<seq<nat>>, used: nat)
    requires SlabsOk(size, pages, mem, hs, chains, used) && SameContent(hs, hs')
    ensures SlabsOk(size, pages, mem, hs', chains, used)
  {
    forall s | 1 <= s <= used
      ensures SlabOk(size, pages, mem, s, hs'[s], chains[s])
    {
      assert SlabOk(size, pages, mem, s, hs[s], chains[s]);
    }
  }

  /** Objects of a slab do not matter for the lists while it stays partial. */
  lemma SameLinksSorted(hs: seq<Header>, hs': seq<Header>, chains: seq<seq<nat>>, chains': seq<seq<nat>>, used: nat,
                        partial: seq<nat>, full: seq<nat>)
    requires Sorted(hs, chains, used, partial, full)
    requires |hs'| == |hs| && |chains'| == |chains|
    requires forall s | 0 <= s < |hs| :: hs'[s].next == hs[s].next && hs'[s].prev == hs[s].prev
    requires forall s | 1 <= s <= used :: chains'[s] == [] <==> chains[s] == []
    ensures Sorted(hs', chains', used, partial, full)
  {
    KeepLinked(hs, hs', partial);
    KeepLinked(hs, hs', full);
  }
}
