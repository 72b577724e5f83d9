/** Physical page frames: the global frame allocator (kernel/src/mm/page.rs), the per-CPU
    page caches above it (kernel/src/mm/pcp.rs) and the page descriptors whose `next_free`
    field threads the lists of both layers (kernel/src/mm/page_desc.rs).
  */
module PageFrames {
  import opened Basics
  import opened Counting

  /** Frame number of the first byte of physical memory. */
  const BASE: nat := 0x80000
  /** Number of page descriptors. */
  const MAX_PAGES: nat := 16384
  /** Frames from BASE up to LIMIT have a descriptor. */
  const LIMIT: nat := BASE + MAX_PAGES
  /** End mark of the global list. */
  const FREE_LIST_NULL: nat := 0xFFFF_FFFF_FFFF_FFFF
  /** End mark of the per-CPU lists. */
  const PCP_NULL: nat := 0

  const MAX_CPUS: nat := 4
  const MIGRATE_TYPES: nat := 3
  const SLOTS: nat := MAX_CPUS * MIGRATE_TYPES
  const PCP_HIGH: nat := 64
  const PCP_LOW: nat := 16
  const PCP_BATCH: nat := 16

  /** Where a frame is. */
  datatype Place = Global | Cached(slot: nat) | Handed

  type Places = map<nat, Place>

  /** `pfn_to_page` returns a descriptor. */
  predicate Described(f: nat) { BASE <= f < LIMIT }

  /** Link read through the descriptor; a frame without one reads as 0. */
  function NextOf(links: seq<nat>, f: nat): nat
    requires |links| == MAX_PAGES
  {
    if Described(f) then links[f - BASE] else 0
  }

  /** Link stored through the descriptor; without one nothing is stored. */
  function WithNext(links: seq<nat>, f: nat, next: nat): (r: seq<nat>)
    requires |links| == MAX_PAGES
    ensures |r| == MAX_PAGES
  {
    if Described(f) then links[f - BASE := next] else links
  }

  /** Following the links from `head` visits exactly `l` and ends at `end`. */
  ghost predicate Chain(links: seq<nat>, head: nat, l: seq<nat>, end: nat)
    requires |links| == MAX_PAGES
    decreases |l|
  {
    if l == [] then head == end
    else head == l[0] && Chain(links, NextOf(links, head), l[1..], end)
  }

  /** The frames at `place` are exactly those of `l`, linked from `head` without repetition. */
  ghost predicate Holds(links: seq<nat>, head: nat, l: seq<nat>, end: nat, places: Places, place: Place)
    requires |links| == MAX_PAGES
  {
    && Chain(links, head, l, end)
    && (forall i, j | 0 <= i < j < |l| :: l[i] != l[j])
    && (forall f: nat :: f in l <==> f in places && places[f] == place)
    && (forall f | f in l :: Described(f))
  }

  // ----- list lemmas

  lemma {:induction false} ChainFrame(links: seq<nat>, head: nat, l: seq<nat>, end: nat, f: nat, next: nat)
    requires |links| == MAX_PAGES && Chain(links, head, l, end) && f !in l
    ensures Chain(WithNext(links, f, next), head, l, end)
    decreases |l|
  {
    if l != [] {
      ChainFrame(links, NextOf(links, head), l[1..], end, f, next);
    }
  }

  /** Pushing `f` in front of a list keeps the list exactly when `f` has a descriptor or the
      list was empty with end mark 0; otherwise every frame behind `f` is lost. */
  lemma PushIffDescribed(links: seq<nat>, head: nat, l: seq<nat>, f: nat)
    requires |links| == MAX_PAGES && Chain(links, head, l, PCP_NULL) && f !in l
    requires forall i | 0 <= i < |l| :: l[i] != PCP_NULL
    ensures Chain(WithNext(links, f, head), f, [f] + l, PCP_NULL) <==> Described(f) || l == []
    ensures !Described(f) ==> Chain(WithNext(links, f, head), f, [f], PCP_NULL)
  {
    var links' := WithNext(links, f, head);
    assert ([f] + l)[1..] == l;
    ChainFrame(links, head, l, PCP_NULL, f, head);
    assert Chain(links', f, [f] + l, PCP_NULL) <==> Chain(links', NextOf(links', f), l, PCP_NULL);
    assert [f][1..] == [];
    assert Chain(links', f, [f], PCP_NULL) <==> NextOf(links', f) == PCP_NULL;
  }

  lemma HoldsPush(links: seq<nat>, head: nat, l: seq<nat>, end: nat, places: Places, place: Place, f: nat)
    requires |links| == MAX_PAGES && Holds(links, head, l, end, places, place)
    requires Described(f) && f !in l
    ensures Holds(WithNext(links, f, head), f, [f] + l, end, places[f := place], place)
  {
    ChainFrame(links, head, l, end, f, head);
    assert ([f] + l)[1..] == l;
  }

  lemma HoldsPop(links: seq<nat>, head: nat, l: seq<nat>, end: nat, places: Places, place: Place, to: Place)
    requires |links| == MAX_PAGES && Holds(links, head, l, end, places, place)
    requires l != [] && to != place
    ensures Holds(links, NextOf(links, head), l[1..], end, places[head := to], place)
    ensures head == l[0] && head in places && places[head] == place && Described(head)
  {
    assert head in l;
    assert forall f: nat :: f in l <==> f == l[0] || f in l[1..];
  }

  /** A list is untouched by stores to, and moves of, a frame that is and stays elsewhere. */
  lemma HoldsFrame(links: seq<nat>, head: nat, l: seq<nat>, end: nat, places: Places, place: Place,
                   f: nat, next: nat, to: Place)
    requires |links| == MAX_PAGES && Holds(links, head, l, end, places, place)
    requires f !in l && to != place
    ensures Holds(WithNext(links, f, next), head, l, end, places[f := to], place)
    ensures Holds(links, head, l, end, places[f := to], place)
  {
    ChainFrame(links, head, l, end, f, next);
  }

  // ----- the state of both layers

  /** Every frame from `start` up to the bump pointer is in exactly one place, and each list
      holds exactly the frames placed on it. */
  ghost predicate Intact(start: nat, bump: nat, links: seq<nat>, freeHead: nat, heads: seq<nat>,
                         free: seq<nat>, cached: seq<seq<nat>>, places: Places)
  {
    && |links| == MAX_PAGES && |heads| == |cached| == SLOTS
    && BASE <= start <= bump <= LIMIT
    && (forall f: nat :: f in places <==> start <= f < bump)
    && (forall f | f in places && places[f].Cached? :: places[f].slot < SLOTS)
    && Holds(links, freeHead, free, FREE_LIST_NULL, places, Global)
    && (forall s | 0 <= s < SLOTS :: Holds(links, heads[s], cached[s], PCP_NULL, places, Cached(s)))
  }

  lemma BumpKeeps(start: nat, bump: nat, links: seq<nat>, freeHead: nat, heads: seq<nat>,
                  free: seq<nat>, cached: seq<seq<nat>>, places: Places)
    requires Intact(start, bump, links, freeHead, heads, free, cached, places) && bump < LIMIT
    ensures Intact(start, bump + 1, links, freeHead, heads, free, cached, places[bump := Handed])
  {
    HoldsFrame(links, freeHead, free, FREE_LIST_NULL, places, Global, bump, 0, Handed);
    forall s | 0 <= s < SLOTS
      ensures Holds(links, heads[s], cached[s], PCP_NULL, places[bump := Handed], Cached(s))
    {
      HoldsFrame(links, heads[s], cached[s], PCP_NULL, places, Cached(s), bump, 0, Handed);
    }
  }

  lemma PopGlobalKeeps(start: nat, bump: nat, links: seq<nat>, freeHead: nat, heads: seq<nat>,
                       free: seq<nat>, cached: seq<seq<nat>>, places: Places)
    requires Intact(start, bump, links, freeHead, heads, free, cached, places) && free != []
    ensures freeHead == free[0] && freeHead in places && places[freeHead] == Global && Described(freeHead)
    ensures Intact(start, bump, links, NextOf(links, freeHead), heads, free[1..], cached, places[freeHead := Handed])
  {
    HoldsPop(links, freeHead, free, FREE_LIST_NULL, places, Global, Handed);
    forall s | 0 <= s < SLOTS
      ensures Holds(links, heads[s], cached[s], PCP_NULL, places[freeHead := Handed], Cached(s))
    {
      HoldsFrame(links, heads[s], cached[s], PCP_NULL, places, Cached(s), freeHead, 0, Handed);
    }
  }

  lemma PushGlobalKeeps(start: nat, bump: nat, links: seq<nat>, freeHead: nat, heads: seq<nat>,
                        free: seq<nat>, cached: seq<seq<nat>>, places: Places, f: nat)
    requires Intact(start, bump, links, freeHead, heads, free, cached, places)
    requires f in places && places[f] == Handed
    ensures Intact(start, bump, WithNext(links, f, freeHead), f, heads, [f] + free, cached, places[f := Global])
  {
    HoldsPush(links, freeHead, free, FREE_LIST_NULL, places, Global, f);
    forall s | 0 <= s < SLOTS
      ensures Holds(WithNext(links, f, freeHead), heads[s], cached[s], PCP_NULL, places[f := Global], Cached(s))
    {
      HoldsFrame(links, heads[s], cached[s], PCP_NULL, places, Cached(s), f, freeHead, Global);
    }
  }

  lemma PushCachedKeeps(start: nat, bump: nat, links: seq<nat>, freeHead: nat, heads: seq<nat>,
                        free: seq<nat>, cached: seq<seq<nat>>, places: Places, f: nat, s: nat)
    requires Intact(start, bump, links, freeHead, heads, free, cached, places)
    requires f in places && places[f] == Handed && s < SLOTS
    ensures Intact(start, bump, WithNext(links, f, heads[s]), freeHead, heads[s := f],
                   free, cached[s := [f] + cached[s]], places[f := Cached(s)])
  {
    HoldsPush(links, heads[s], cached[s], PCP_NULL, places, Cached(s), f);
    HoldsFrame(links, freeHead, free, FREE_LIST_NULL, places, Global, f, heads[s], Cached(s));
    forall t | 0 <= t < SLOTS && t != s
      ensures Holds(WithNext(links, f, heads[s]), heads[t], cached[t], PCP_NULL, places[f := Cached(s)], Cached(t))
    {
      HoldsFrame(links, heads[t], cached[t], PCP_NULL, places, Cached(t), f, heads[s], Cached(s));
    }
  }

  lemma PopCachedKeeps(start: nat, bump: nat, links: seq<nat>, freeHead: nat, heads: seq<nat>,
                       free: seq<nat>, cached: seq<seq<nat>>, places: Places, s: nat)
    requires Intact(start, bump, links, freeHead, heads, free, cached, places)
    requires s < SLOTS && cached[s] != []
    ensures var f := heads[s];
            && f == cached[s][0] && f in places && places[f] == Cached(s) && Described(f)
            && Intact(start, bump, links, freeHead, heads[s := NextOf(links, f)],
                      free, cached[s := cached[s][1..]], places[f := Handed])
  {
    var f := heads[s];
    HoldsPop(links, f, cached[s], PCP_NULL, places, Cached(s), Handed);
    HoldsFrame(links, freeHead, free, FREE_LIST_NULL, places, Global, f, 0, Handed);
    forall t | 0 <= t < SLOTS && t != s
      ensures Holds(links, heads[t], cached[t], PCP_NULL, places[f := Handed], Cached(t))
    {
      HoldsFrame(links, heads[t], cached[t], PCP_NULL, places, Cached(t), f, 0, Handed);
    }
  }

  /** The link of a handed-out frame may be overwritten. */
  lemma StoreKeeps(start: nat, bump: nat, links: seq<nat>, freeHead: nat, heads: seq<nat>,
                   free: seq<nat>, cached: seq<seq<nat>>, places: Places, f: nat, next: nat)
    requires Intact(start, bump, links, freeHead, heads, free, cached, places)
    requires f in places && places[f] == Handed
    ensures Intact(start, bump, WithNext(links, f, next), freeHead, heads, free, cached, places)
  {
    assert places[f := Handed] == places;
    HoldsFrame(links, freeHead, free, FREE_LIST_NULL, places, Global, f, next, Handed);
    forall s | 0 <= s < SLOTS
      ensures Holds(WithNext(links, f, next), heads[s], cached[s], PCP_NULL, places, Cached(s))
    {
      HoldsFrame(links, heads[s], cached[s], PCP_NULL, places, Cached(s), f, next, Handed);
    }
  }

  /** The frames in the hands of callers. */
  ghost function HandedOut(places: Places): set<nat> {
    set f | f in places && places[f] == Handed
  }

  /** The frames at a place. */
  ghost function At(places: Places, place: Place): set<nat> {
    set f | f in places && places[f] == place
  }

  /** The frames cached in the first `n` slots. */
  ghost function CachedBelow(places: Places, n: nat): set<nat> {
    set f | f in places && places[f].Cached? && places[f].slot < n
  }

  ghost function TotalLength(lists: seq<seq<nat>>): nat {
    if lists == [] then 0 else TotalLength(lists[..|lists| - 1]) + |lists[|lists| - 1]|
  }

  /** The lengths of the per-CPU lists add up to the number of frames placed on them. */
  lemma {:induction false} CachedSize(links: seq<nat>, heads: seq<nat>, cached: seq<seq<nat>>, places: Places, n: nat)
    requires |links| == MAX_PAGES && n <= |heads| == |cached|
    requires forall s | 0 <= s < |cached| :: Holds(links, heads[s], cached[s], PCP_NULL, places, Cached(s))
    ensures |CachedBelow(places, n)| == TotalLength(cached[..n])
  {
    if n > 0 {
      CachedSize(links, heads, cached, places, n - 1);
      assert cached[..n][..n - 1] == cached[..n - 1];
      var here := At(places, Cached(n - 1));
      assert Holds(links, heads[n - 1], cached[n - 1], PCP_NULL, places, Cached(n - 1));
      assert |here| == |cached[n - 1]| by { DistinctSize(cached[n - 1], here); }
      CachedBelowStep(places, n - 1);
    }
  }

  lemma CachedBelowStep(places: Places, n: nat)
    ensures |CachedBelow(places, n + 1)| == |CachedBelow(places, n)| + |At(places, Cached(n))|
  {
    assert CachedBelow(places, n + 1) == CachedBelow(places, n) + At(places, Cached(n));
    assert CachedBelow(places, n) !! At(places, Cached(n));
  }

  /** Exactly one of the global list, the per-CPU lists and the callers has the frame. */
  ghost predicate InOnePlace(free: seq<nat>, cached: seq<seq<nat>>, handed: set<nat>, f: nat) {
    || (f in free && f !in handed && forall s | 0 <= s < |cached| :: f !in cached[s])
    || (f !in free && f in handed && forall s | 0 <= s < |cached| :: f !in cached[s])
    || (f !in free && f !in handed && exists s | 0 <= s < |cached| ::
          f in cached[s] && forall t | 0 <= t < |cached| && t != s :: f !in cached[t])
  }

  /** Counted by place, the frames add up. */
  lemma PlacesAddUp(start: nat, bump: nat, places: Places)
    requires start <= bump && forall f: nat :: f in places <==> start <= f < bump
    requires forall f | f in places && places[f].Cached? :: places[f].slot < SLOTS
    ensures |At(places, Global)| + |CachedBelow(places, SLOTS)| + |HandedOut(places)| == bump - start
  {
    var global, listed, handed := At(places, Global), CachedBelow(places, SLOTS), HandedOut(places);
    RangeSize(start, bump, places.Keys);
    assert places.Keys == global + listed + handed;
    assert global !! listed && (global + listed) !! handed;
  }

  lemma HeldIn(links: seq<nat>, head: nat, l: seq<nat>, end: nat, places: Places, place: Place, f: nat)
    requires |links| == MAX_PAGES && Holds(links, head, l, end, places, place) && f in places
    ensures f in l <==> places[f] == place
  {
  }

  lemma FrameInOnePlace(start: nat, bump: nat, links: seq<nat>, freeHead: nat, heads: seq<nat>,
                        free: seq<nat>, cached: seq<seq<nat>>, places: Places, f: nat)
    requires Intact(start, bump, links, freeHead, heads, free, cached, places) && start <= f < bump
    ensures InOnePlace(free, cached, HandedOut(places), f)
  {
    HeldIn(links, freeHead, free, FREE_LIST_NULL, places, Global, f);
    forall s | 0 <= s < |cached|
      ensures f in cached[s] <==> places[f] == Cached(s)
    {
      HeldIn(links, heads[s], cached[s], PCP_NULL, places, Cached(s), f);
    }
    if places[f].Cached? {
      var s := places[f].slot;
      assert f in cached[s] && forall t | 0 <= t < |cached| && t != s :: f !in cached[t];
    }
  }

  /** Conservation: every frame below the bump pointer is on the global list, on exactly one
      per-CPU list, or handed out, and in only one of these places; no frame is lost. */
  lemma FramesConserved(start: nat, bump: nat, links: seq<nat>, freeHead: nat, heads: seq<nat>,
                        free: seq<nat>, cached: seq<seq<nat>>, places: Places)
    requires Intact(start, bump, links, freeHead, heads, free, cached, places)
    ensures |free| + TotalLength(cached) + |HandedOut(places)| == bump - start
    ensures forall f | start <= f < bump :: InOnePlace(free, cached, HandedOut(places), f)
  {
    assert |free| == |At(places, Global)| by {
      DistinctSize(free, At(places, Global));
    }
    assert |CachedBelow(places, SLOTS)| == TotalLength(cached) by {
      CachedSize(links, heads, cached, places, SLOTS);
      assert cached[..SLOTS] == cached;
    }
    PlacesAddUp(start, bump, places);
    forall f | start <= f < bump
      ensures InOnePlace(free, cached, HandedOut(places), f)
    {
      FrameInOnePlace(start, bump, links, freeHead, heads, free, cached, places, f);
    }
  }

  lemma HandedOutUpdate(places: Places, f: nat, to: Place)
    ensures HandedOut(places[f := to]) == if to == Handed then HandedOut(places) + {f} else HandedOut(places) - {f}
  {
  }

  /** The first slot of a CPU. */
  function Slots(cpu: nat): nat { cpu * MIGRATE_TYPES }

  /** The frames cached by a CPU. */
  ghost function CachedBy(places: Places, cpu: nat): set<nat> {
    set f | f in places && places[f].Cached? && Slots(cpu) <= places[f].slot < Slots(cpu + 1)
  }

  /** The lists of the slots from `a` up to `b` are forgotten; their frames count as handed out. */
  ghost function Lost(places: Places, a: nat, b: nat): Places {
    map f | f in places :: if places[f].Cached? && a <= places[f].slot < b then Handed else places[f]
  }

  /** `places'` is `places` after that. */
  ghost predicate IsLost(places: Places, places': Places, a: nat, b: nat) {
    && places'.Keys == places.Keys
    && (forall f | f in places ::
          places'[f] == if places[f].Cached? && a <= places[f].slot < b then Handed else places[f])
  }

  lemma LostStep(before: Places, places: Places, a: nat, b: nat)
    requires a <= b && IsLost(before, places, a, b)
    ensures IsLost(before, Lost(places, b, b + 1), a, b + 1)
  {
  }

  lemma LostHanded(before: Places, places: Places, cpu: nat)
    requires IsLost(before, places, Slots(cpu), Slots(cpu + 1))
    ensures HandedOut(places) == HandedOut(before) + CachedBy(before, cpu)
  {
  }

  /** A list is untouched when another slot is forgotten. */
  lemma LostElsewhere(links: seq<nat>, head: nat, l: seq<nat>, end: nat, places: Places, place: Place, s: nat)
    requires |links| == MAX_PAGES && Holds(links, head, l, end, places, place)
    requires place != Handed && place != Cached(s)
    ensures Holds(links, head, l, end, Lost(places, s, s + 1), place)
  {
  }

  lemma ForgetKeeps(start: nat, bump: nat, links: seq<nat>, freeHead: nat, heads: seq<nat>,
                    free: seq<nat>, cached: seq<seq<nat>>, places: Places, s: nat)
    requires Intact(start, bump, links, freeHead, heads, free, cached, places) && s < SLOTS
    ensures Intact(start, bump, links, freeHead, heads[s := PCP_NULL], free, cached[s := []], Lost(places, s, s + 1))
  {
    var places' := Lost(places, s, s + 1);
    LostElsewhere(links, freeHead, free, FREE_LIST_NULL, places, Global, s);
    forall t | 0 <= t < SLOTS && t != s
      ensures Holds(links, heads[t], cached[t], PCP_NULL, places', Cached(t))
    {
      LostElsewhere(links, heads[t], cached[t], PCP_NULL, places, Cached(t), s);
    }
    assert Holds(links, PCP_NULL, [], PCP_NULL, places', Cached(s));
  }

  lemma EmptiedSlots(cached: seq<seq<nat>>, cpu: nat)
    requires |cached| == SLOTS && cpu < MAX_CPUS
    ensures var s := Slots(cpu); var cached' := cached[s := []][s + 1 := []][s + 2 := []];
            forall t | 0 <= t < SLOTS :: cached'[t] == if Slots(cpu) <= t < Slots(cpu + 1) then [] else cached[t]
  {
  }

  lemma NothingCached(start: nat, bump: nat, links: seq<nat>, freeHead: nat, heads: seq<nat>,
                      free: seq<nat>, cached: seq<seq<nat>>, places: Places, cpu: nat)
    requires Intact(start, bump, links, freeHead, heads, free, cached, places) && cpu >= MAX_CPUS
    ensures CachedBy(places, cpu) == {}
  {
  }

  /** How many of `n` frames repeated removal of whole batches leaves. */
  ghost function Kept(n: nat): (k: nat)
    ensures k <= n && k <= PCP_LOW
  {
    if n <= PCP_LOW then n else Kept(n - PCP_BATCH)
  }

  lemma KeptFromHigh()
    ensures Kept(PCP_HIGH) == PCP_LOW
  {
    assert Kept(32) == PCP_LOW;
    assert Kept(48) == PCP_LOW;
  }

  // ----- what comes next

  /** The frame numbers from `bump` up to `total`. */
  ghost function Unused(bump: nat, total: nat): seq<nat>
    decreases total - bump
  {
    if bump < total then [bump] + Unused(bump + 1, total) else []
  }

  /** All frames the global allocator can still give out, in the order in which it will: those of
      the free list, then those the bump pointer has not reached. */
  ghost function Supply(free: seq<nat>, bump: nat, total: nat): seq<nat> {
    free + Unused(bump, total)
  }

  lemma SupplyNext(free: seq<nat>, bump: nat, total: nat)
    ensures Supply(free, bump, total) == [] <==> free == [] && bump >= total
    ensures free != [] ==>
              && Supply(free, bump, total)[0] == free[0]
              && Supply(free, bump, total)[1..] == Supply(free[1..], bump, total)
    ensures free == [] && bump < total ==>
              && Supply(free, bump, total)[0] == bump
              && Supply(free, bump, total)[1..] == Supply([], bump + 1, total)
  {
  }

  lemma {:induction false} UnusedAt(bump: nat, total: nat, i: nat)
    ensures |Unused(bump, total)| == if bump < total then total - bump else 0
    ensures bump + i < total ==> Unused(bump, total)[i] == bump + i
    decreases total - bump
  {
    if bump < total {
      UnusedAt(bump + 1, total, if i > 0 then i - 1 else 0);
    }
  }

  ghost function Reversed(l: seq<nat>): (r: seq<nat>)
    ensures |r| == |l|
  {
    if l == [] then [] else [l[|l| - 1]] + Reversed(l[..|l| - 1])
  }

  lemma ReversedAppend(l: seq<nat>, i: nat)
    requires i < |l|
    ensures Reversed(l[..i + 1]) == [l[i]] + Reversed(l[..i])
  {
    assert l[..i + 1][..i] == l[..i];
  }

  lemma {:induction false} ReversedAt(l: seq<nat>, i: nat)
    requires i < |l|
    ensures Reversed(l)[i] == l[|l| - 1 - i]
  {
    if i > 0 {
      ReversedAt(l[..|l| - 1], i - 1);
    }
  }

  lemma {:induction false} ReversedConcat(a: seq<nat>, b: seq<nat>)
    ensures Reversed(a + b) == Reversed(b) + Reversed(a)
    decreases |b|
  {
    if b == [] {
      assert a + b == a;
    } else {
      assert (a + b)[..|a + b| - 1] == a + b[..|b| - 1];
      ReversedConcat(a, b[..|b| - 1]);
    }
  }

  /** The first `n` frames of the list `l` of slot `s` have gone to the free list, one by one. */
  ghost predicate Moved(l: seq<nat>, n: nat, s: nat, cached: seq<seq<nat>>, free: seq<nat>,
                        cached': seq<seq<nat>>, free': seq<nat>)
  {
    && s < |cached| && n <= |l| && cached' == cached[s := l[n..]]
    && free' == Reversed(l[..n]) + free
  }

  lemma MovedOne(l: seq<nat>, n: nat, s: nat, cached: seq<seq<nat>>, free: seq<nat>,
                 cached1: seq<seq<nat>>, free1: seq<nat>, cached2: seq<seq<nat>>, free2: seq<nat>)
    requires Moved(l, n, s, cached, free, cached1, free1) && n < |l|
    requires cached2 == cached1[s := cached1[s][1..]] && free2 == [cached1[s][0]] + free1
    ensures Moved(l, n + 1, s, cached, free, cached2, free2)
  {
    ReversedAppend(l, n);
    assert l[n..][1..] == l[n + 1..];
  }

  lemma MovedBatch(l: seq<nat>, n: nat, m: nat, s: nat, cached: seq<seq<nat>>, free: seq<nat>,
                   cached1: seq<seq<nat>>, free1: seq<nat>, cached2: seq<seq<nat>>, free2: seq<nat>)
    requires Moved(l, n, s, cached, free, cached1, free1) && n + m <= |l|
    requires Moved(l[n..], m, s, cached1, free1, cached2, free2)
    ensures Moved(l, n + m, s, cached, free, cached2, free2)
  {
    assert l[n..][m..] == l[n + m..];
    assert l[..n + m] == l[..n] + l[n..][..m];
    ReversedConcat(l[..n], l[n..][..m]);
  }

  /** Only the present content of the slot matters, not what it held before. */
  lemma MovedFrom(l: seq<nat>, n: nat, s: nat, cached: seq<seq<nat>>, free: seq<nat>,
                  cached1: seq<seq<nat>>, cached2: seq<seq<nat>>, free2: seq<nat>)
    requires s < |cached| && cached1 == cached[s := l] && Moved(l, n, s, cached1, free, cached2, free2)
    ensures Moved(l, n, s, cached, free, cached2, free2)
  {
  }

  lemma MovedSmall(l: seq<nat>, n: nat, s: nat, cached: seq<seq<nat>>, free: seq<nat>,
                   cached': seq<seq<nat>>, free': seq<nat>)
    requires Moved(l, n, s, cached, free, cached', free') && |l| - n < PCP_HIGH
    requires forall t | 0 <= t < |cached| && t != s :: |cached[t]| < PCP_HIGH
    ensures forall t | 0 <= t < |cached'| :: |cached'[t]| < PCP_HIGH
  {
  }

  lemma MovedNone(s: nat, cached: seq<seq<nat>>, free: seq<nat>)
    requires s < |cached|
    ensures Moved(cached[s], 0, s, cached, free, cached, free)
  {
    var l := cached[s];
    assert l[0..] == l && l[..0] == [] && cached[s := l] == cached;
  }

  /** The same in the middle of draining: what is left will be cut down to what all would be. */
  ghost predicate Draining(l: seq<nat>, n: nat, s: nat, cached: seq<seq<nat>>, free: seq<nat>,
                           cached': seq<seq<nat>>, free': seq<nat>)
  {
    Moved(l, n, s, cached, free, cached', free') && Kept(|l| - n) == Kept(|l|)
  }

  lemma DrainingOn(l: seq<nat>, n: nat, s: nat, cached: seq<seq<nat>>, free: seq<nat>,
                   cached1: seq<seq<nat>>, free1: seq<nat>, cached2: seq<seq<nat>>, free2: seq<nat>)
    requires Draining(l, n, s, cached, free, cached1, free1) && |l| - n > PCP_LOW
    requires Moved(l[n..], PCP_BATCH, s, cached1, free1, cached2, free2)
    ensures Draining(l, n + PCP_BATCH, s, cached, free, cached2, free2)
  {
    MovedBatch(l, n, PCP_BATCH, s, cached, free, cached1, free1, cached2, free2);
  }

  /** The number of frames a refill brings. */
  ghost function BatchOf(supply: seq<nat>): nat { Min(PCP_BATCH, |supply|) }

  /** An allocation from the cached list `l`, with `supply` behind it, gives `r` and leaves `l'` and
      `supply'`: the first of the list; or, the list being empty, the last of a batch taken from the
      supply, the others of the batch staying in the list, the last taken first. */
  ghost predicate CacheGives(l: seq<nat>, supply: seq<nat>, r: Option<nat>, l': seq<nat>, supply': seq<nat>) {
    if l != [] then r == Some(l[0]) && l' == l[1..] && supply' == supply
    else if supply == [] then r == None && l' == [] && supply' == []
    else
      var n := BatchOf(supply);
      r == Some(supply[n - 1]) && l' == Reversed(supply[..n - 1]) && supply' == supply[n..]
  }

  /** Taking from a list just refilled is taking from the empty one. */
  lemma RefilledGives(q: seq<nat>, r: Option<nat>, l': seq<nat>, supply': seq<nat>)
    requires q != [] && CacheGives(Reversed(q[..BatchOf(q)]), q[BatchOf(q)..], r, l', supply')
    ensures CacheGives([], q, r, l', supply')
  {
    ReversedAppend(q, BatchOf(q) - 1);
  }

  function Slot(cpu: nat, mt: nat): (s: nat)
    requires cpu < MAX_CPUS && mt < MIGRATE_TYPES
    ensures s < SLOTS && s / MIGRATE_TYPES == cpu && s % MIGRATE_TYPES == mt
  {
    cpu * MIGRATE_TYPES + mt
  }

  class PageLayers {
    /** `total_frames`: the bump pointer never passes it. */
    const total: nat
    var bump: nat
    var freeHead: nat
    /** `next_free` of every page descriptor. */
    const links: array<nat>
    /** `lists`, `counts` and `initialized` of all per-CPU caches; see `Slot`. */
    const lists: array<nat>
    const counts: array<nat>
    const ready: array<bool>

    ghost const start: nat
    ghost var free: seq<nat>
    ghost var cached: seq<seq<nat>>
    ghost var places: Places

    ghost predicate Shape() {
      && links.Length == MAX_PAGES && lists.Length == counts.Length == SLOTS && ready.Length == MAX_CPUS
      && links != lists && links != counts && lists != counts
    }

    /** Both layers conserve their frames; below the high-water mark between operations. */
    ghost predicate Valid()
      reads this, links, lists, counts
    {
      && Linked()
      && (forall s | 0 <= s < SLOTS :: counts[s] < PCP_HIGH)
    }

    ghost predicate Linked()
      reads this, links, lists, counts
    {
      && Shape()
      && Intact(start, bump, links[..], freeHead, lists[..], free, cached, places)
      && (forall s | 0 <= s < SLOTS :: counts[s] == |cached[s]|)
    }

    /** The next `n` frames the bump pointer can give out have descriptors. */
    ghost predicate Room(n: nat)
      reads this
    {
      total <= LIMIT || bump + n <= LIMIT
    }

    constructor (start: nat, total: nat)
      requires BASE <= start <= LIMIT
      ensures Valid() && this.start == start && this.total == total && bump == start
      ensures places == map[] && free == [] && (forall c | 0 <= c < MAX_CPUS :: !ready[c])
      ensures fresh(links) && fresh(lists) && fresh(counts) && fresh(ready)
    {
      this.start := start;
      this.total := total;
      bump, freeHead := start, FREE_LIST_NULL;
      links := new nat[MAX_PAGES](_ => 0);
      lists := new nat[SLOTS](_ => PCP_NULL);
      counts := new nat[SLOTS](_ => 0);
      ready := new bool[MAX_CPUS](_ => false);
      free, cached, places := [], seq(SLOTS, _ => []), map[];
    }

    function GetNextFree(f: nat): nat
      requires links.Length == MAX_PAGES
      reads links
    {
      if Described(f) then links[f - BASE] else 0
    }

    method SetNextFree(f: nat, next: nat)
      requires links.Length == MAX_PAGES
      modifies links
      ensures links[..] == WithNext(old(links[..]), f, next)
    {
      if Described(f) {
        links[f - BASE] := next;
      }
    }

    // ----- the global allocator

    /** `FrameAllocator::allocate`: the head of the free list, or else the bump pointer. */
    method Allocate() returns (r: Option<nat>)
      requires Linked() && Room(1)
      modifies this
      ensures Linked() && cached == old(cached) && bump <= old(bump) + 1
      ensures r == None <==> old(free) == [] && old(bump) >= total
      ensures r == None ==> places == old(places) && free == [] && bump == old(bump)
      ensures r.Some? ==>
                && (r.value in old(places) ==> old(places)[r.value] == Global)
                && places == old(places)[r.value := Handed]
                && r.value !in HandedOut(old(places)) && HandedOut(places) == HandedOut(old(places)) + {r.value}
                && (old(free) != [] ==> free == old(free)[1..] && bump == old(bump))
                && (old(free) == [] ==> free == [] && bump == old(bump) + 1)
      ensures var q := Supply(old(free), old(bump), total);
              if q == [] then r == None else r == Some(q[0]) && Supply(free, bump, total) == q[1..]
    {
      SupplyNext(free, bump, total);
      if freeHead != FREE_LIST_NULL && Described(freeHead) {
        assert free != [];
        var f := freeHead;
        PopGlobalKeeps(start, bump, links[..], freeHead, lists[..], free, cached, places);
        HandedOutUpdate(places, f, Handed);
        freeHead := GetNextFree(f);
        free, places := free[1..], places[f := Handed];
        return Some(f);
      }
      assert free == [] by {
        if free != [] {
          PopGlobalKeeps(start, bump, links[..], freeHead, lists[..], free, cached, places);
        }
      }
      if bump < total {
        var f := bump;
        HandedOutUpdate(places, f, Handed);
        BumpKeeps(start, bump, links[..], freeHead, lists[..], free, cached, places);
        bump := bump + 1;
        places := places[f := Handed];
        return Some(f);
      }
      return None;
    }

    /** `FrameAllocator::deallocate`: frames below physical memory are ignored. */
    method Deallocate(f: nat)
      requires Linked()
      requires f >= BASE ==> f in places && places[f] == Handed
      modifies this, links
      ensures Linked() && cached == old(cached) && bump == old(bump)
      ensures f < BASE ==> places == old(places) && free == old(free)
      ensures f >= BASE ==> places == old(places)[f := Global] && free == [f] + old(free)
      ensures f >= BASE ==> HandedOut(places) == HandedOut(old(places)) - {f}
    {
      if f < BASE {
        return;
      }
      PushGlobalKeeps(start, bump, links[..], freeHead, lists[..], free, cached, places, f);
      HandedOutUpdate(places, f, Global);
      SetNextFree(f, freeHead);
      freeHead := f;
      free, places := [f] + free, places[f := Global];
    }

    // ----- the per-CPU caches

    /** Pushes a frame on the list of slot `s`. */
    method Push(s: nat, f: nat)
      requires Linked() && s < SLOTS && f in places && places[f] == Handed
      modifies this`cached, this`places, links, lists, counts
      ensures Linked() && cached == old(cached)[s := [f] + old(cached[s])]
      ensures places == old(places)[f := Cached(s)] && HandedOut(places) == HandedOut(old(places)) - {f}
    {
      HandedOutUpdate(places, f, Cached(s));
      PushCachedKeeps(start, bump, links[..], freeHead, lists[..], free, cached, places, f, s);
      SetNextFree(f, lists[s]);
      lists[s] := f;
      counts[s] := counts[s] + 1;
      cached, places := cached[s := [f] + cached[s]], places[f := Cached(s)];
    }

    /** Pops the first frame of slot `s`, whose list is not empty, and clears its link. */
    method Pop(s: nat) returns (f: nat)
      requires Linked() && s < SLOTS && counts[s] > 0
      modifies this`cached, this`places, links, lists, counts
      ensures Linked() && cached == old(cached)[s := old(cached[s])[1..]]
      ensures f == old(cached[s])[0] && f in old(places) && old(places)[f] == Cached(s) && f >= BASE
      ensures places == old(places)[f := Handed]
      ensures f !in HandedOut(old(places)) && HandedOut(places) == HandedOut(old(places)) + {f}
    {
      HandedOutUpdate(places, lists[s], Handed);
      PopCachedKeeps(start, bump, links[..], freeHead, lists[..], free, cached, places, s);
      f := lists[s];
      lists[s] := GetNextFree(f);
      counts[s] := counts[s] - 1;
      cached, places := cached[s := cached[s][1..]], places[f := Handed];
      StoreKeeps(start, bump, links[..], freeHead, lists[..], free, cached, places, f, PCP_NULL);
      SetNextFree(f, PCP_NULL);
    }

    /** Fetches up to a batch of frames from the global allocator into the empty slot `s`. */
    method Refill(s: nat) returns (ok: bool)
      requires Linked() && s < SLOTS && cached[s] == [] && Room(PCP_BATCH)
      modifies this, links, lists, counts
      ensures Linked() && HandedOut(places) == HandedOut(old(places))
      ensures var q := Supply(old(free), old(bump), total); var n := BatchOf(q);
              && (ok <==> q != [])
              && cached == old(cached)[s := Reversed(q[..n])] && Supply(free, bump, total) == q[n..]
      ensures !ok ==> places == old(places) && free == [] && bump == old(bump)
    {
      ghost var q := Supply(free, bump, total);
      for i := 0 to PCP_BATCH
        invariant Linked() && i <= |q| && Room(PCP_BATCH - i)
        invariant cached == old(cached)[s := Reversed(q[..i])] && Supply(free, bump, total) == q[i..]
        invariant HandedOut(places) == HandedOut(old(places))
        invariant i == 0 ==> places == old(places) && free == old(free) && bump == old(bump)
      {
        var more := Fetch(s);
        if !more {
          break;
        }
        ReversedAppend(q, i);
        assert q[i..][1..] == q[i + 1..];
      }
      SupplyNext(free, bump, total);
      return counts[s] > 0;
    }

    /** One round of `refill`. */
    method Fetch(s: nat) returns (ok: bool)
      requires Linked() && s < SLOTS && Room(1)
      modifies this, links, lists, counts
      ensures Linked() && bump <= old(bump) + 1 && HandedOut(places) == HandedOut(old(places))
      ensures var q := Supply(old(free), old(bump), total);
              && (ok <==> q != [])
              && (ok ==> cached == old(cached)[s := [q[0]] + old(cached[s])] && Supply(free, bump, total) == q[1..])
      ensures !ok ==> places == old(places) && cached == old(cached) && free == old(free) && bump == old(bump)
    {
      var r := Allocate();
      if r.None? {
        return false;
      }
      Push(s, r.value);
      return true;
    }

    /** One round of `drain`. */
    method Evict(s: nat)
      requires Linked() && s < SLOTS && cached[s] != []
      modifies this, links, lists, counts
      ensures Linked() && cached == old(cached)[s := old(cached[s])[1..]] && free == [old(cached[s])[0]] + old(free)
      ensures HandedOut(places) == HandedOut(old(places)) && bump == old(bump)
    {
      var f := Pop(s);
      Deallocate(f);
    }

    /** One batch of `drain`. A list with a positive count never starts with the end mark, so
        the source's check for it inside the batch cannot fire. */
    method DrainBatch(s: nat)
      requires Linked() && s < SLOTS && |cached[s]| >= PCP_BATCH
      modifies this, links, lists, counts
      ensures Linked() && Moved(old(cached[s]), PCP_BATCH, s, old(cached), old(free), cached, free)
      ensures HandedOut(places) == HandedOut(old(places)) && bump == old(bump)
    {
      ghost var l := cached[s];
      MovedNone(s, cached, free);
      for i := 0 to PCP_BATCH
        invariant Linked() && Moved(l, i, s, old(cached), old(free), cached, free)
        invariant HandedOut(places) == HandedOut(old(places)) && bump == old(bump)
      {
        ghost var cached1, free1 := cached, free;
        Evict(s);
        MovedOne(l, i, s, old(cached), old(free), cached1, free1, cached, free);
      }
    }

    /** Returns the newest frames of slot `s` in batches until at most the low-water mark remains. */
    method Drain(s: nat)
      requires Linked() && s < SLOTS
      modifies this, links, lists, counts
      ensures Linked()
      ensures Moved(old(cached[s]), old(|cached[s]|) - Kept(old(|cached[s]|)), s, old(cached), old(free), cached, free)
      ensures HandedOut(places) == HandedOut(old(places)) && bump == old(bump)
    {
      ghost var l := cached[s];
      ghost var n: nat := 0;
      MovedNone(s, cached, free);
      while counts[s] > PCP_LOW && counts[s] > PCP_BATCH
        invariant Linked() && Draining(l, n, s, old(cached), old(free), cached, free)
        invariant HandedOut(places) == HandedOut(old(places)) && bump == old(bump)
        decreases counts[s]
      {
        ghost var cached1, free1 := cached, free;
        DrainBatch(s);
        DrainingOn(l, n, s, old(cached), old(free), cached1, free1, cached, free);
        n := n + PCP_BATCH;
      }
    }

    /** `PerCpuPages::alloc`. */
    method PcpAlloc(s: nat) returns (r: Option<nat>)
      requires Valid() && s < SLOTS && (cached[s] == [] ==> Room(PCP_BATCH))
      modifies this, links, lists, counts
      ensures Valid() && cached == old(cached)[s := cached[s]]
      ensures CacheGives(old(cached[s]), Supply(old(free), old(bump), total), r, cached[s], Supply(free, bump, total))
      ensures r == None ==> places == old(places) && free == [] && bump == old(bump)
      ensures r.Some? ==>
                && r.value !in HandedOut(old(places))
                && HandedOut(places) == HandedOut(old(places)) + {r.value}
      decreases if cached[s] == [] then 2 else 0
    {
      if counts[s] > 0 {
        var f := Pop(s);
        return Some(f);
      }
      r := AllocRefilled(s);
    }

    /** The second half of `alloc`, for an empty list. */
    method AllocRefilled(s: nat) returns (r: Option<nat>)
      requires Valid() && s < SLOTS && cached[s] == [] && Room(PCP_BATCH)
      modifies this, links, lists, counts
      ensures Valid() && cached == old(cached)[s := cached[s]]
      ensures CacheGives([], Supply(old(free), old(bump), total), r, cached[s], Supply(free, bump, total))
      ensures r == None ==> places == old(places) && free == [] && bump == old(bump)
      ensures r.Some? ==>
                && r.value !in HandedOut(old(places))
                && HandedOut(places) == HandedOut(old(places)) + {r.value}
      decreases 1
    {
      ghost var q := Supply(free, bump, total);
      var ok := Refill(s);
      if !ok {
        return None;
      }
      r := PcpAlloc(s);
      RefilledGives(q, r, cached[s], Supply(free, bump, total));
    }

    /** `PerCpuPages::free`: the frame becomes the first of its list; on reaching the high-water
        mark the newest frames go back and the oldest PCP_LOW ones stay. */
    method PcpFree(s: nat, f: nat)
      requires Valid() && s < SLOTS && f in places && places[f] == Handed
      modifies this, links, lists, counts
      ensures Valid() && cached == old(cached)[s := cached[s]]
      ensures var l := [f] + old(cached[s]);
              Moved(l, if |l| < PCP_HIGH then 0 else PCP_HIGH - PCP_LOW, s, old(cached), old(free), cached, free)
      ensures HandedOut(places) == HandedOut(old(places)) - {f} && bump == old(bump)
    {
      ghost var l := [f] + cached[s];
      Push(s, f);
      ghost var cached1 := cached;
      Settle(s);
      MovedFrom(l, if |l| < PCP_HIGH then 0 else PCP_HIGH - PCP_LOW, s, old(cached), old(free), cached1, cached, free);
    }

    /** The end of `free`: a list that has reached the high-water mark is drained. */
    method Settle(s: nat)
      requires Linked() && s < SLOTS && |cached[s]| <= PCP_HIGH
      requires forall t | 0 <= t < SLOTS && t != s :: |cached[t]| < PCP_HIGH
      modifies this, links, lists, counts
      ensures Valid() && HandedOut(places) == HandedOut(old(places)) && bump == old(bump)
      ensures Moved(old(cached[s]), if old(|cached[s]|) < PCP_HIGH then 0 else PCP_HIGH - PCP_LOW, s,
                    old(cached), old(free), cached, free)
    {
      if counts[s] >= PCP_HIGH {
        ghost var l, cached1, free1 := cached[s], cached, free;
        assert Kept(|l|) == PCP_LOW by { KeptFromHigh(); }
        Drain(s);
        MovedSmall(l, |l| - PCP_LOW, s, cached1, free1, cached, free);
      } else {
        MovedNone(s, cached, free);
      }
    }

    /** `init_percpu_pages`: empties the lists of the CPU. The frames cached there, and no others, are
        lost: they count as handed out from then on, though nobody holds them. */
    method InitCpu(cpu: nat)
      requires Valid()
      modifies this`cached, this`places, lists, counts, ready
      ensures Valid()
      ensures HandedOut(places) == HandedOut(old(places)) + CachedBy(old(places), cpu)
      ensures forall c, mt | 0 <= c < MAX_CPUS && 0 <= mt < MIGRATE_TYPES ::
                cached[Slot(c, mt)] == if c == cpu then [] else old(cached)[Slot(c, mt)]
      ensures forall c | 0 <= c < MAX_CPUS :: ready[c] <==> old(ready[c]) || c == cpu
    {
      if cpu >= MAX_CPUS {
        NothingCached(start, bump, links[..], freeHead, lists[..], free, cached, places, cpu);
        return;
      }
      EmptiedSlots(cached, cpu);
      ForgetSlots(cpu * MIGRATE_TYPES);
      ready[cpu] := true;
      LostHanded(old(places), places, cpu);
    }

    /** The stores of `init`: three slots. */
    method ForgetSlots(s: nat)
      requires Valid() && s + MIGRATE_TYPES <= SLOTS
      modifies this`cached, this`places, lists, counts
      ensures Valid() && cached == old(cached)[s := []][s + 1 := []][s + 2 := []]
      ensures IsLost(old(places), places, s, s + MIGRATE_TYPES)
    {
      Forget(s, s, old(places));
      Forget(s + 1, s, old(places));
      Forget(s + 2, s, old(places));
    }

    /** One slot, when those from `a` on have been emptied. */
    method Forget(s: nat, ghost a: nat, ghost before: Places)
      requires Valid() && a <= s < SLOTS && IsLost(before, places, a, s)
      modifies this`cached, this`places, lists, counts
      ensures Valid() && cached == old(cached)[s := []] && IsLost(before, places, a, s + 1)
    {
      ForgetKeeps(start, bump, links[..], freeHead, lists[..], free, cached, places, s);
      LostStep(before, places, a, s);
      lists[s] := PCP_NULL;
      counts[s] := 0;
      cached, places := cached[s := []], Lost(places, s, s + 1);
    }

    /** The CPU has a cache. */
    ghost predicate Caching(cpu: nat)
      requires Shape()
      reads ready
    {
      cpu < MAX_CPUS && ready[cpu]
    }

    /** `alloc_page_pcp` on the given CPU: it fails only when the CPU's cache, the free list and
        the bump region are all exhausted, and never hands out a frame twice. */
    method AllocPage(cpu: nat, mt: nat) returns (r: Option<nat>)
      requires Valid() && mt < MIGRATE_TYPES && Room(PCP_BATCH)
      modifies this, links, lists, counts
      ensures Valid()
      ensures Caching(cpu) ==>
                var s := Slot(cpu, mt);
                && cached == old(cached)[s := cached[s]]
                && CacheGives(old(cached)[s], Supply(old(free), old(bump), total),
                              r, cached[s], Supply(free, bump, total))
      ensures !Caching(cpu) ==>
                var q := Supply(old(free), old(bump), total);
                && cached == old(cached)
                && if q == [] then r == None else r == Some(q[0]) && Supply(free, bump, total) == q[1..]
      ensures r == None ==> places == old(places)
      ensures r.Some? ==>
                && r.value !in HandedOut(old(places))
                && HandedOut(places) == HandedOut(old(places)) + {r.value}
    {
      if cpu < MAX_CPUS && ready[cpu] {
        r := PcpAlloc(Slot(cpu, mt));
        if r.Some? {
          return;
        }
        SupplyNext(free, bump, total);
      }
      r := Allocate();
    }

    /** `free_page_pcp` on the given CPU, for a frame the caller holds. */
    method FreePage(cpu: nat, mt: nat, f: nat)
      requires Valid() && mt < MIGRATE_TYPES && f in places && places[f] == Handed
      modifies this, links, lists, counts
      ensures Valid()
      ensures HandedOut(places) == HandedOut(old(places)) - {f} && bump == old(bump)
      ensures !Caching(cpu) ==> free == [f] + old(free) && cached == old(cached)
      ensures Caching(cpu) ==>
                var s := Slot(cpu, mt); var l := [f] + old(cached)[s];
                Moved(l, if |l| < PCP_HIGH then 0 else PCP_HIGH - PCP_LOW, s, old(cached), old(free), cached, free)
    {
      if cpu < MAX_CPUS && ready[cpu] {
        PcpFree(Slot(cpu, mt), f);
        return;
      }
      Deallocate(f);
    }

    /** A frame that is freed is the next one allocated on the same CPU for the same type, unless
        freeing it made the cache overflow: then it is the newest of the frames that stayed. */
    method FreeThenAlloc(cpu: nat, mt: nat, f: nat) returns (r: Option<nat>)
      requires Valid() && mt < MIGRATE_TYPES && f in places && places[f] == Handed && Room(PCP_BATCH)
      modifies this, links, lists, counts
      ensures Valid()
      ensures r == Some(if Caching(cpu) && old(|cached[Slot(cpu, mt)]|) == PCP_HIGH - 1
                        then old(cached)[Slot(cpu, mt)][PCP_HIGH - PCP_LOW - 1] else f)
    {
      FreePage(cpu, mt, f);
      SupplyNext(free, bump, total);
      r := AllocPage(cpu, mt);
    }
  }
}
