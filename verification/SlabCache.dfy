/** The operations of a slab cache (kernel/src/mm/slab.rs). */
module SlabCache {
  import opened Basics
  import opened Bits
  import opened Sequences
  import opened SlabLists
  import opened Slab

  /** What moving slab `from[i]` to the front of `to` does to the members of both lists. */
  lemma MoveMembers(hs: seq<Header>, from: seq<nat>, to: seq<nat>, i: nat, s: nat)
    requires Linked(hs, from) && Linked(hs, to) && i < |from| && from[i] == s
    requires forall t | t in from :: t !in to
    ensures s < |hs| && hs[s].prev < |hs| && hs[s].next < |hs| && First(to, NO_SLAB) < |hs|
    ensures First(Without(from, i), NO_SLAB) == if hs[s].prev == 0 then hs[s].next else First(from, NO_SLAB)
    ensures forall t :: t in Without(from, i) <==> t in from && t != s
    ensures var hs' := PushFront(Unlink(hs, hs[s].prev, hs[s].next), First(to, NO_SLAB), s);
            SameContent(hs, hs') && Linked(hs', Without(from, i)) && Linked(hs', [s] + to)
  {
    LinksOf(hs, from, i);
    MoveLinked(hs, from, to, i);
    WithoutHead(from, i);
    forall t: nat
      ensures t in Without(from, i) <==> t in from && t != s
    {
      WithoutMembers(from, i, t);
    }
  }

  /** The last free object of slab `s` is gone: it moves to the full list. */
  lemma ToFull(hs: seq<Header>, hs': seq<Header>, chains: seq<seq<nat>>, chains': seq<seq<nat>>, used: nat,
               partial: seq<nat>, full: seq<nat>, partial': seq<nat>, s: nat)
    requires Sorted(hs, chains, used, partial, full) && |hs'| == |hs| && |chains'| == |chains|
    requires 1 <= s <= used && chains'[s] == []
    requires forall t | 1 <= t <= used && t != s :: chains'[t] == chains[t]
    requires Linked(hs', partial') && Linked(hs', [s] + full)
    requires forall t :: t in partial' <==> t in partial && t != s
    ensures Sorted(hs', chains', used, partial', [s] + full)
  {
    forall t: nat
      ensures t in [s] + full <==> 1 <= t <= used && chains'[t] == []
    {
      assert t in [s] + full <==> t == s || t in full;
    }
  }

  /** The first object of full slab `s` came back: it moves to the partial list. */
  lemma ToPartial(hs: seq<Header>, hs': seq<Header>, chains: seq<seq<nat>>, chains': seq<seq<nat>>, used: nat,
                  partial: seq<nat>, full: seq<nat>, full': seq<nat>, s: nat)
    requires Sorted(hs, chains, used, partial, full) && |hs'| == |hs| && |chains'| == |chains|
    requires 1 <= s <= used && chains'[s] != []
    requires forall t | 1 <= t <= used && t != s :: chains'[t] == chains[t]
    requires Linked(hs', full') && Linked(hs', [s] + partial)
    requires forall t :: t in full' <==> t in full && t != s
    ensures Sorted(hs', chains', used, [s] + partial, full')
  {
    forall t: nat
      ensures t in [s] + partial <==> 1 <= t <= used && chains'[t] != []
    {
      assert t in [s] + partial <==> t == s || t in partial;
    }
  }

  /** The whole move of slab `s`, the first of the partial list, to the full list. */
  lemma ToFullStep(size: nat, pages: nat, mem: Memory, hs: seq<Header>, before: seq<seq<nat>>, chains: seq<seq<nat>>,
                   used: nat, partial: seq<nat>, full: seq<nat>, s: nat)
    requires SlabsOk(size, pages, mem, hs, chains, used) && Sorted(hs, before, used, partial, full)
    requires 1 <= s <= used && before[s] != [] && chains == before[s := chains[s]] && chains[s] == []
    requires First(partial, NO_SLAB) == s
    ensures partial != [] && partial[0] == s
    ensures s < |hs| && hs[s].prev < |hs| && hs[s].next < |hs| && First(full, NO_SLAB) < |hs|
    ensures First(Without(partial, 0), NO_SLAB) == if hs[s].prev == 0 then hs[s].next else First(partial, NO_SLAB)
    ensures var hs' := PushFront(Unlink(hs, hs[s].prev, hs[s].next), First(full, NO_SLAB), s);
            && SlabsOk(size, pages, mem, hs', chains, used)
            && Sorted(hs', chains, used, Without(partial, 0), [s] + full)
  {
    assert s in partial;
    MoveMembers(hs, partial, full, 0, s);
    var hs' := PushFront(Unlink(hs, hs[s].prev, hs[s].next), First(full, NO_SLAB), s);
    ToFull(hs, hs', before, chains, used, partial, full, Without(partial, 0), s);
    SameContentSlabs(size, pages, mem, hs, hs', chains, used);
  }

  /** The whole move of slab `s`, at position `k` of the full list, to the partial list. */
  lemma FromFullStep(size: nat, pages: nat, mem: Memory, hs: seq<Header>, before: seq<seq<nat>>, chains: seq<seq<nat>>,
                     used: nat, partial: seq<nat>, full: seq<nat>, s: nat) returns (k: nat)
    requires SlabsOk(size, pages, mem, hs, chains, used) && Sorted(hs, before, used, partial, full)
    requires 1 <= s <= used && before[s] == [] && chains == before[s := chains[s]] && chains[s] != []
    ensures k < |full| && full[k] == s
    ensures s < |hs| && hs[s].prev < |hs| && hs[s].next < |hs| && First(partial, NO_SLAB) < |hs|
    ensures First(Without(full, k), NO_SLAB) == if hs[s].prev == 0 then hs[s].next else First(full, NO_SLAB)
    ensures var hs' := PushFront(Unlink(hs, hs[s].prev, hs[s].next), First(partial, NO_SLAB), s);
            && SlabsOk(size, pages, mem, hs', chains, used)
            && Sorted(hs', chains, used, [s] + partial, Without(full, k))
  {
    assert s in full;
    k :| 0 <= k < |full| && full[k] == s;
    MoveMembers(hs, full, partial, k, s);
    var hs' := PushFront(Unlink(hs, hs[s].prev, hs[s].next), First(partial, NO_SLAB), s);
    ToPartial(hs, hs', before, chains, used, partial, full, Without(full, k), s);
    SameContentSlabs(size, pages, mem, hs, hs', chains, used);
  }

  class Cache {
    const size: nat
    /** Address of the first slab page and number of pages. */
    const base: nat
    const pages: nat
    /** `allocated_pages`. */
    var used: nat
    var partialList: nat
    var fullList: nat
    const mem: array<nat>
    const headers: array<Header>

    ghost var chains: seq<seq<nat>>
    ghost var partial: seq<nat>
    ghost var full: seq<nat>

    ghost predicate Valid()
      reads this, mem, headers
    {
      && base % PAGE_SIZE == 0 && base > 0
      && SlabsOk(size, pages, mem[..], headers[..], chains, used)
      && Sorted(headers[..], chains, used, partial, full)
      && partialList == First(partial, NO_SLAB) && fullList == First(full, NO_SLAB)
    }

    /** The objects handed out and not yet given back. */
    ghost function Live(): set<(nat, nat)>
      requires Valid()
      reads this, mem, headers
    {
      LiveObjects(size, chains, used)
    }

    ghost function Address(s: nat, i: nat): nat
      requires s > 0
    {
      base + Offset(size, s, i)
    }

    constructor (size: nat, base: nat, pages: nat)
      requires 8 <= size <= 2048 && base % PAGE_SIZE == 0 && base > 0 && pages < END
      ensures Valid() && Live() == {} && fresh(mem) && fresh(headers)
      ensures this.size == size && this.base == base && this.pages == pages && used == 0
    {
      this.size, this.base, this.pages := size, base, pages;
      used, partialList, fullList := 0, 0, 0;
      mem := new nat[pages * PAGE_SIZE](_ => 0);
      headers := new Header[pages + 1](_ => Header(0, 0, 0, 0, 0, 0, 0));
      chains, partial, full := seq(pages + 1, _ => []), [], [];
      PerSlabPositive(size);
    }

    /** `move_slab_to_full` and `move_slab_from_full`: the links. */
    method Relink(s: nat, target: nat) returns (first: bool)
      requires s < headers.Length && target < headers.Length
      requires headers[s].prev < headers.Length && headers[s].next < headers.Length
      modifies headers
      ensures first <==> old(headers[s].prev) == 0
      ensures headers[..] == PushFront(Unlink(old(headers[..]), old(headers[s].prev), old(headers[s].next)), target, s)
    {
      var next, prev := headers[s].next, headers[s].prev;
      first := prev == 0;
      if !first {
        headers[prev] := headers[prev].(next := next);
      }
      if next != 0 {
        headers[next] := headers[next].(prev := prev);
      }
      headers[s] := headers[s].(next := target, prev := 0);
      if target != 0 {
        headers[target] := headers[target].(prev := s);
      }
    }

    /** `alloc_from_slab` on the first partial slab, which always has a free object. */
    method AllocFromSlab() returns (ptr: nat, ghost s: nat, ghost i: nat)
      requires Valid() && partialList != 0
      modifies this`partialList, this`fullList, this`chains, this`partial, this`full, headers
      ensures Valid()
      ensures s == old(partialList) && 1 <= s <= used && ptr == Address(s, i) && ptr != NULL
      ensures (s, i) !in old(Live()) && Live() == old(Live()) + {(s, i)}
      ensures i == old(chains)[s][0] && chains == old(chains)[s := old(chains)[s][1..]]
      ensures mem[..] == old(mem[..])
    {
      var slab := partialList;
      s := slab;
      assert partial != [] && partial[0] == s && s in partial;
      ghost var hs0, chains0 := headers[..], chains;
      TakeSlabs(size, pages, mem[..], hs0, chains, used, s);
      var obj := headers[slab].freeIndex;
      i := obj;
      var a := (slab - 1) * PAGE_SIZE + HEADER_SIZE + obj * size;
      assert a == Offset(size, s, i);
      ptr := base + a;
      var nextFree := mem[a] + 0x100 * mem[a + 1];
      headers[slab] := headers[slab].(freeIndex := nextFree, freeObjects := headers[slab].freeObjects - 1);
      ghost var hs1 := headers[..];
      assert hs1 == hs0[s := hs0[s].(freeIndex := ReadU16(mem[..], a), freeObjects := hs0[s].freeObjects - 1)];
      chains := chains[s := chains[s][1..]];
      TakeLive(size, chains0, used, s);
      if headers[slab].freeObjects == 0 {
        SameLinksSorted(hs0, hs1, chains0, chains0, used, partial, full);
        MoveToFull(slab, chains0);
      } else {
        SameLinksSorted(hs0, hs1, chains0, chains, used, partial, full);
      }
    }

    /** `move_slab_to_full`, for the first partial slab when its last free object was taken. */
    method MoveToFull(slab: nat, ghost before: seq<seq<nat>>)
      requires SlabsOk(size, pages, mem[..], headers[..], chains, used)
      requires Sorted(headers[..], before, used, partial, full)
      requires partialList == First(partial, NO_SLAB) == slab && fullList == First(full, NO_SLAB)
      requires 1 <= slab <= used && before[slab] != [] && chains == before[slab := chains[slab]] && chains[slab] == []
      modifies this`partialList, this`fullList, this`partial, this`full, headers
      ensures SlabsOk(size, pages, mem[..], headers[..], chains, used)
      ensures Sorted(headers[..], chains, used, partial, full)
      ensures partialList == First(partial, NO_SLAB) && fullList == First(full, NO_SLAB)
    {
      ToFullStep(size, pages, mem[..], headers[..], before, chains, used, partial, full, slab);
      var next := headers[slab].next;
      var first := Relink(slab, fullList);
      if first {
        partialList := next;
      }
      fullList := slab;
      partial, full := Without(partial, 0), [slab] + full;
    }

    /** `create_slab`: takes the next page and links all its objects in order. */
    method CreateSlab() returns (s: nat)
      requires Valid() && partial == []
      modifies this`used, this`chains, this`partial, this`partialList, mem, headers
      ensures Valid() && Live() == old(Live())
      ensures s == 0 <==> old(used) >= pages
      ensures s == 0 ==> used == old(used) && partialList == 0
      ensures s != 0 ==> s == used == old(used) + 1 && partialList == s && partial == [s]
      ensures s != 0 ==> chains == old(chains)[s := Ascending(0, PerSlab(size))]
      ensures forall x | 0 <= x < mem.Length && x < old(used) * PAGE_SIZE :: mem[x] == old(mem[x])
    {
      if used >= pages {
        return 0;
      }
      ghost var used0, hs0, mem0 := used, headers[..], mem[..];
      used := used + 1;
      s := used;
      var n := PerSlab(size);
      headers[s] := Header(0, size, n, n, 0, 0, 0);
      LinkObjects(s, n);
      FreshChain(size, pages, mem[..], s, 0);
      chains := chains[s := Ascending(0, n)];
      partial, partialList := [s], s;
      FreshSlabs(size, pages, mem0, mem[..], hs0, headers[..], old(chains), chains, used0);
      FreshSorted(hs0, headers[..], old(chains), chains, used0, full);
    }

    /** The loop of `create_slab` that stores the initial free list. */
    method LinkObjects(s: nat, n: nat)
      requires 2 <= size && n == PerSlab(size) >= 1 && 0 < s <= pages < END && mem.Length == pages * PAGE_SIZE
      modifies mem
      ensures SameOutside(old(mem[..]), mem[..], (s - 1) * PAGE_SIZE, PAGE_SIZE)
      ensures forall j | 0 <= j < n ::
                Offset(size, s, j) + 1 < mem.Length
                && ReadU16(mem[..], Offset(size, s, j)) == if j + 1 < n then j + 1 else END
    {
      for i := 0 to n
        invariant SameOutside(old(mem[..]), mem[..], (s - 1) * PAGE_SIZE, PAGE_SIZE)
        invariant forall j | 0 <= j < i ::
                    Offset(size, s, j) + 1 < mem.Length
                    && ReadU16(mem[..], Offset(size, s, j)) == if j + 1 < n then j + 1 else END
      {
        ObjectInPage(size, pages, s, i);
        var a := (s - 1) * PAGE_SIZE + HEADER_SIZE + i * size;
        assert a == Offset(size, s, i);
        var v := if i + 1 < n then i + 1 else END;
        forall j | 0 <= j < i
          ensures Offset(size, s, j) + 1 < a
        {
          ObjectsDisjoint(size, pages, s, j, s, i);
          MulMonotone(j, i, size);
        }
        mem[a], mem[a + 1] := v % 0x100, v / 0x100;
      }
    }

    /** `alloc`. The free list of whole slabs is never filled, so it is not consulted. */
    method Alloc() returns (ptr: nat, ghost s: nat, ghost i: nat)
      requires Valid()
      modifies this, mem, headers
      ensures Valid()
      ensures ptr == NULL <==> old(used) == pages && AllTaken(size, pages, old(Live()))
      ensures ptr == NULL ==> Live() == old(Live())
      ensures ptr != NULL ==>
                if old(partial) != [] then s == old(partial)[0] && i == old(chains)[s][0]
                else s == old(used) + 1 && i == 0
      ensures ptr != NULL ==>
                1 <= s <= used && ptr == Address(s, i) && (s, i) !in old(Live()) && Live() == old(Live()) + {(s, i)}
      ensures forall x | 0 <= x < mem.Length && x < old(used) * PAGE_SIZE :: mem[x] == old(mem[x])
    {
      HeadIsNull(headers[..], partial);
      ExhaustedIff(size, pages, mem[..], headers[..], chains, used, partial, full);
      if partialList != 0 {
        ptr, s, i := AllocFromSlab();
        return;
      }
      var slab := CreateSlab();
      if slab == 0 {
        return NULL, 0, 0;
      }
      ptr, s, i := AllocFromSlab();
    }

    /** Rounding down to the page and `find_slab_by_addr`; 0 when there is no such slab. */
    method FindSlab(ptr: nat) returns (slab: nat, pageAddr: nat)
      requires base % PAGE_SIZE == 0 && used <= pages
      ensures pageAddr == ptr - ptr % PAGE_SIZE
      ensures slab != 0 <==> base <= ptr < base + used * PAGE_SIZE
      ensures slab != 0 ==> slab <= used && pageAddr == base + (slab - 1) * PAGE_SIZE
    {
      pageAddr := ptr - ptr % PAGE_SIZE;
      if pageAddr < base || pageAddr - base >= pages * PAGE_SIZE {
        return 0, pageAddr;
      }
      slab := (pageAddr - base) / PAGE_SIZE + 1;
      if slab > used {
        slab := 0;
      }
    }

    /** The object is the first free one of its slab, which comes to the front of the partial list if
        it was full. */
    ghost predicate FreedFirst(s: nat, i: nat, chains0: seq<seq<nat>>, partial0: seq<nat>)
      reads this
    {
      && s < |chains0| && chains == chains0[s := [i] + chains0[s]]
      && partial == if chains0[s] == [] then [s] + partial0 else partial0
    }

    /** `free`: false for a pointer outside the slab pages in use; any other pointer must be
        that of a live object. */
    method Free(ptr: nat, ghost s: nat, ghost i: nat) returns (ok: bool)
      requires Valid()
      requires base <= ptr < base + used * PAGE_SIZE ==>
                 1 <= s <= used && ptr == Address(s, i) && (s, i) in Live()
      modifies this`partialList, this`fullList, this`chains, this`partial, this`full, mem, headers
      ensures Valid()
      ensures ok <==> base <= ptr < base + used * PAGE_SIZE
      ensures !ok ==> Live() == old(Live()) && mem[..] == old(mem[..])
      ensures ok ==> Live() == old(Live()) - {(s, i)}
      ensures ok ==> SameOutside(old(mem[..]), mem[..], Offset(size, s, i), size)
      ensures ok ==> FreedFirst(s, i, old(chains), old(partial))
    {
      var slab, pageAddr := FindSlab(ptr);
      if slab == 0 {
        return false;
      }
      PageOf(size, base, pages, s, i);
      QuotientExact(i, size);
      assert slab == s;
      var obj := (ptr - pageAddr - HEADER_SIZE) / size;
      FreeObject(slab, obj);
      return true;
    }

    /** The object goes in front of the free list of its slab. */
    method PutBack(slab: nat, obj: nat)
      requires Valid() && 1 <= slab <= used && (slab, obj) in Live()
      modifies this`chains, mem, headers
      ensures SlabsOk(size, pages, mem[..], headers[..], chains, used)
      ensures chains == old(chains)[slab := [obj] + old(chains[slab])]
      ensures headers[slab].freeObjects == |chains[slab]|
      ensures Sorted(headers[..], old(chains), used, partial, full)
      ensures LiveObjects(size, chains, used) == old(Live()) - {(slab, obj)}
      ensures SameOutside(old(mem[..]), mem[..], Offset(size, slab, obj), size)
    {
      ghost var hs0, mem0, chains0 := headers[..], mem[..], chains;
      PutSlabs(size, pages, mem0, hs0, chains, used, slab, obj);
      ObjectInPage(size, pages, slab, obj);
      var a := (slab - 1) * PAGE_SIZE + HEADER_SIZE + obj * size;
      assert a == Offset(size, slab, obj);
      var link := headers[slab].freeIndex;
      mem[a], mem[a + 1] := link % 0x100, link / 0x100;
      assert mem[..] == WriteU16(mem0, a, hs0[slab].freeIndex);
      headers[slab] := headers[slab].(freeIndex := obj, freeObjects := headers[slab].freeObjects + 1);
      chains := chains[slab := [obj] + chains[slab]];
      PutLive(size, chains0, used, slab, obj);
      SameLinksSorted(hs0, headers[..], chains0, chains0, used, partial, full);
      assert SlabOk(size, pages, mem[..], slab, headers[..][slab], chains[slab]);
    }

    /** `move_slab_from_full`, for a slab that was full before its first object came back. */
    method MoveFromFull(slab: nat, ghost before: seq<seq<nat>>)
      requires SlabsOk(size, pages, mem[..], headers[..], chains, used)
      requires Sorted(headers[..], before, used, partial, full)
      requires partialList == First(partial, NO_SLAB) && fullList == First(full, NO_SLAB)
      requires 1 <= slab <= used && before[slab] == [] && chains == before[slab := chains[slab]] && chains[slab] != []
      modifies this`partialList, this`fullList, this`partial, this`full, headers
      ensures SlabsOk(size, pages, mem[..], headers[..], chains, used)
      ensures Sorted(headers[..], chains, used, partial, full) && partial == [slab] + old(partial)
      ensures partialList == First(partial, NO_SLAB) && fullList == First(full, NO_SLAB)
    {
      ghost var k := FromFullStep(size, pages, mem[..], headers[..], before, chains, used, partial, full, slab);
      var next := headers[slab].next;
      var first := Relink(slab, partialList);
      if first {
        fullList := next;
      }
      partialList := slab;
      partial, full := [slab] + partial, Without(full, k);
    }

    /** The part of `free` after the slab and the object have been identified. */
    method FreeObject(slab: nat, obj: nat)
      requires Valid() && 1 <= slab <= used && (slab, obj) in Live()
      modifies this`partialList, this`fullList, this`chains, this`partial, this`full, mem, headers
      ensures Valid() && Live() == old(Live()) - {(slab, obj)}
      ensures SameOutside(old(mem[..]), mem[..], Offset(size, slab, obj), size)
      ensures FreedFirst(slab, obj, old(chains), old(partial))
    {
      ghost var before := chains;
      PutBack(slab, obj);
      if headers[slab].freeObjects == 1 {
        MoveFromFull(slab, before);
      } else {
        SameLinksSorted(headers[..], headers[..], before, chains, used, partial, full);
      }
    }

    /** An object that is freed is the next one allocated, if its slab was full or is the first with free
        objects; otherwise the first free object of that one is. */
    method FreeThenAlloc(ptr: nat, ghost s: nat, ghost i: nat) returns (again: nat)
      requires Valid() && 1 <= s <= used && ptr == Address(s, i) && (s, i) in Live()
      modifies this, mem, headers
      ensures Valid()
      ensures again == if old(chains)[s] == [] || old(partial)[0] == s then ptr
                       else Address(old(partial)[0], old(chains)[old(partial)[0]][0])
    {
      FirstPartial(size, pages, mem[..], headers[..], chains, used, partial, full, s, i);
      var ok := Free(ptr, s, i);
      ghost var t, j;
      again, t, j := Alloc();
    }

    /** The owner of a live object stores any byte anywhere in it. */
    method OwnerStore(s: nat, i: nat, offset: nat, value: nat)
      requires Valid() && 1 <= s <= used && (s, i) in Live() && offset < size
      modifies mem
      ensures Valid() && Live() == old(Live())
      ensures Offset(size, s, i) + offset < mem.Length
      ensures mem[..] == old(mem[..])[Offset(size, s, i) + offset := value]
    {
      ObjectInPage(size, pages, s, i);
      ghost var mem0 := mem[..];
      mem[Offset(size, s, i) + offset] := value;
      WriteSlabs(size, pages, mem0, mem[..], headers[..], chains, used, s, i);
    }
  }

  lemma FirstPartial(size: nat, pages: nat, mem: Memory, hs: seq<Header>, chains: seq<seq<nat>>, used: nat,
                     partial: seq<nat>, full: seq<nat>, s: nat, i: nat)
    requires SlabsOk(size, pages, mem, hs, chains, used) && Sorted(hs, chains, used, partial, full)
    requires 1 <= s <= used && (s, i) in LiveObjects(size, chains, used)
    ensures Offset(size, s, i) < used * PAGE_SIZE
    ensures chains[s] != [] ==> partial != []
    ensures partial != [] ==> 1 <= partial[0] <= used && chains[partial[0]] != []
    ensures HEADER_SIZE + (i + 1) * size <= PAGE_SIZE
  {
    ObjectInPage(size, pages, s, i);
    FitsIff(size, i);
    assert chains[s] != [] ==> s in partial;
    assert partial != [] ==> partial[0] in partial;
  }

  lemma PutLive(size: nat, chains: seq<seq<nat>>, used: nat, s: nat, i: nat)
    requires size > 0 && used < |chains| && 1 <= s <= used && i < PerSlab(size) && i !in chains[s]
    ensures LiveObjects(size, chains[s := [i] + chains[s]], used) == LiveObjects(size, chains, used) - {(s, i)}
  {
    var c := [i] + chains[s];
    assert forall x :: x in c <==> x == i || x in chains[s];
  }

  /** The page of an object, found by rounding its address down. */
  lemma PageOf(size: nat, base: nat, pages: nat, s: nat, i: nat)
    requires IsObject(size, pages, s, i) && base % PAGE_SIZE == 0
    ensures var ptr := base + Offset(size, s, i); var page := ptr - ptr % PAGE_SIZE;
            page == base + (s - 1) * PAGE_SIZE && ptr - page - HEADER_SIZE == i * size
  {
    PerSlabFits(size, i);
    var q := base / PAGE_SIZE + (s - 1);
    ModUnique(base + Offset(size, s, i), PAGE_SIZE, q, HEADER_SIZE + i * size);
  }

  /** A new slab with all objects free joins the others. */
  lemma FreshSlabs(size: nat, pages: nat, mem: Memory, mem': Memory, hs: seq<Header>, hs': seq<Header>,
                   chains: seq<seq<nat>>, chains': seq<seq<nat>>, used: nat)
    requires SlabsOk(size, pages, mem, hs, chains, used) && used < pages
    requires |mem'| == |mem| && |hs'| == |hs| && |chains'| == |chains|
    requires SameOutside(mem, mem', used * PAGE_SIZE, PAGE_SIZE)
    requires forall s | 1 <= s <= used :: hs'[s] == hs[s] && chains'[s] == chains[s]
    requires SlabOk(size, pages, mem', used + 1, hs'[used + 1], chains'[used + 1])
    requires chains'[used + 1] == Ascending(0, PerSlab(size))
    ensures SlabsOk(size, pages, mem', hs', chains', used + 1)
    ensures LiveObjects(size, chains', used + 1) == LiveObjects(size, chains, used)
  {
    forall s | 1 <= s <= used
      ensures SlabOk(size, pages, mem', s, hs'[s], chains'[s])
    {
      EarlierChain(size, pages, mem, mem', s, hs[s].freeIndex, chains[s], used);
    }
    FreshLive(size, chains, chains', used);
  }

  lemma FreshLive(size: nat, chains: seq<seq<nat>>, chains': seq<seq<nat>>, used: nat)
    requires size > 0 && used + 1 < |chains| == |chains'|
    requires forall s | 1 <= s <= used :: chains'[s] == chains[s]
    requires chains'[used + 1] == Ascending(0, PerSlab(size))
    ensures LiveObjects(size, chains', used + 1) == LiveObjects(size, chains, used)
  {
    var all := chains'[used + 1];
    forall i: nat | i < PerSlab(size)
      ensures i in all
    {
      assert all[i] == i;
    }
  }

  /** The free lists of earlier pages are untouched by changes to page `used + 1`. */
  lemma {:induction false} EarlierChain(size: nat, pages: nat, mem: Memory, mem': Memory, s: nat, head: nat,
                                        chain: seq<nat>, used: nat)
    requires 2 <= size && |mem| == |mem'| == pages * PAGE_SIZE && s <= used
    requires FreeChain(size, pages, mem, s, head, chain)
    requires SameOutside(mem, mem', used * PAGE_SIZE, PAGE_SIZE)
    ensures FreeChain(size, pages, mem', s, head, chain)
    decreases |chain|
  {
    if chain != [] {
      ObjectInPage(size, pages, s, head);
      EarlierChain(size, pages, mem, mem', s, ReadU16(mem, Offset(size, s, head)), chain[1..], used);
    }
  }

  lemma FreshSorted(hs: seq<Header>, hs': seq<Header>, chains: seq<seq<nat>>, chains': seq<seq<nat>>,
                    used: nat, full: seq<nat>)
    requires Sorted(hs, chains, used, [], full) && used + 1 < |hs|
    requires |hs'| == |hs| && |chains'| == |chains|
    requires forall s | 1 <= s <= used :: hs'[s] == hs[s] && chains'[s] == chains[s]
    requires chains'[used + 1] != [] && hs'[used + 1].next == 0 && hs'[used + 1].prev == 0
    ensures Sorted(hs', chains', used + 1, [used + 1], full)
  {
    assert forall i | 0 <= i < |full| :: full[i] in full;
    KeepLinked(hs, hs', full);
    assert Linked(hs', [used + 1]);
    assert forall s | 1 <= s <= used :: s !in [] && chains[s] == [];
  }

  lemma PerSlabPositive(size: nat)
    requires 0 < size <= 2048
    ensures PerSlab(size) >= 1
  {
  }

  lemma TakeLive(size: nat, chains: seq<seq<nat>>, used: nat, s: nat)
    requires size > 0 && used < |chains| && 1 <= s <= used && chains[s] != []
    requires chains[s][0] < PerSlab(size) && chains[s][0] !in chains[s][1..]
    ensures (s, chains[s][0]) !in LiveObjects(size, chains, used)
    ensures LiveObjects(size, chains[s := chains[s][1..]], used)
         == LiveObjects(size, chains, used) + {(s, chains[s][0])}
  {
    var c := chains[s];
    assert forall x :: x in c <==> x == c[0] || x in c[1..];
  }
}
