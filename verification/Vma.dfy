/** Virtual memory areas of a process (kernel/src/mm/vma.rs). */
module Vma {
  import opened Basics

  datatype Kind = Anonymous | FileBacked | Device | SharedMemory

  /** The half-open range [start, end); `offset` is the file position of `start`. */
  datatype Area = Area(start: nat, end: nat, flags: nat, offset: nat, kind: Kind) {
    predicate Contains(a: nat) { start <= a < end }

    predicate Overlaps(other: Area) { start < other.end && other.start < end }

    /** `split`: cuts at the page boundary at or below `a`, if both parts are non-empty. */
    function Split(a: nat): Option<(Area, Area)> {
      var cut := a - a % PAGE_SIZE;
      if !Contains(a) || cut <= start || cut >= end then None
      else Some((Area(start, cut, flags, offset, kind), Area(cut, end, flags, offset + (cut - start), kind)))
    }

    predicate CanMerge(other: Area) { end == other.start && flags == other.flags && kind == other.kind }

    /** `merge`: the merged area, when the two fit together. */
    function Merge(other: Area): Option<Area> {
      if CanMerge(other) then Some(Area(start, other.end, flags, offset, kind)) else None
    }

    /** What holds at address `a` of the area. */
    function At(a: nat): View
      requires Contains(a)
    {
      View(flags, kind, offset + (a - start))
    }
  }

  /** Permissions, type and file position of an address. */
  datatype View = View(flags: nat, kind: Kind, position: nat)

  /** Ordered by start address and pairwise disjoint. */
  ghost predicate Ordered(l: seq<Area>) {
    && (forall i | 0 <= i < |l| :: l[i].start < l[i].end)
    && (forall i, j | 0 <= i < j < |l| :: l[i].end <= l[j].start)
  }

  /** Full search: the area that contains `a`. */
  ghost function Lookup(l: seq<Area>, a: nat): Option<Area> {
    if l == [] then None else if l[0].Contains(a) then Some(l[0]) else Lookup(l[1..], a)
  }

  /** The view of an address through all areas. */
  ghost function ViewAt(l: seq<Area>, a: nat): Option<View> {
    var v := Lookup(l, a);
    if v.Some? && v.value.Contains(a) then Some(v.value.At(a)) else None
  }

  lemma {:induction false} LookupNone(l: seq<Area>, a: nat)
    ensures Lookup(l, a) == None <==> forall i | 0 <= i < |l| :: !l[i].Contains(a)
  {
    if l != [] {
      LookupNone(l[1..], a);
    }
  }

  lemma {:induction false} LookupAt(l: seq<Area>, a: nat, i: nat)
    requires Ordered(l) && i < |l| && l[i].Contains(a)
    ensures Lookup(l, a) == Some(l[i])
  {
    if i > 0 {
      assert l[0].end <= l[i].start;
      LookupAt(l[1..], a, i - 1);
    }
  }

  lemma {:induction false} LookupConcat(l: seq<Area>, r: seq<Area>, a: nat)
    ensures Lookup(l + r, a) == if Lookup(l, a).Some? then Lookup(l, a) else Lookup(r, a)
  {
    if l == [] {
      assert l + r == r;
    } else {
      assert (l + r)[1..] == l[1..] + r;
      LookupConcat(l[1..], r, a);
    }
  }

  /** Replacing an area by the two halves of its split is never refused, keeps the order and
      leaves permissions, type and file position of every address as they were; merging the
      halves restores it. */
  lemma SplitKeepsViews(l: seq<Area>, i: nat, at: nat)
    requires Ordered(l) && i < |l| && l[i].Split(at).Some?
    ensures var (lo, hi) := l[i].Split(at).value; var l' := l[..i] + [lo, hi] + l[i + 1..];
            && Ordered(l')
            && (forall a :: ViewAt(l', a) == ViewAt(l, a))
            && lo.Merge(hi) == Some(l[i])
            && !lo.Overlaps(hi)
            && (forall j | 0 <= j < |l| && j != i :: !lo.Overlaps(l[j]) && !hi.Overlaps(l[j]))
  {
    var (lo, hi) := l[i].Split(at).value;
    assert l == l[..i] + [l[i]] + l[i + 1..];
    forall a
      ensures ViewAt(l[..i] + [lo, hi] + l[i + 1..], a) == ViewAt(l, a)
    {
      SplitView(l[..i], l[i], l[i + 1..], at, a);
    }
  }

  lemma SplitView(pre: seq<Area>, v: Area, post: seq<Area>, at: nat, a: nat)
    requires v.Split(at).Some?
    ensures var (lo, hi) := v.Split(at).value; ViewAt(pre + [lo, hi] + post, a) == ViewAt(pre + [v] + post, a)
  {
    var (lo, hi) := v.Split(at).value;
    LookupConcat(pre + [v], post, a);
    LookupConcat(pre, [v], a);
    LookupConcat(pre + [lo, hi], post, a);
    LookupConcat(pre, [lo, hi], a);
    assert [lo, hi][1..] == [hi] && [hi][1..] == [] && [v][1..] == [];
    LookupContains(pre, a);
  }

  lemma {:induction false} LookupContains(l: seq<Area>, a: nat)
    ensures Lookup(l, a).Some? ==> Lookup(l, a).value.Contains(a)
  {
    if l != [] {
      LookupContains(l[1..], a);
    }
  }

  /** Areas overlap exactly when they share an address. */
  lemma OverlapsIff(x: Area, y: Area)
    requires x.start < x.end && y.start < y.end
    ensures x.Overlaps(y) <==> exists a :: x.Contains(a) && y.Contains(a)
  {
    if x.Overlaps(y) {
      var a := if x.start < y.start then y.start else x.start;
      assert x.Contains(a) && y.Contains(a);
    }
  }

  ghost predicate PageBoundary(c: int) { c % 0x1000 == 0 }

  /** An area can be split at an address of its own exactly when a page boundary lies above its start
      and not above the address; the highest such boundary is where it is cut. */
  lemma SplitIff(v: Area, a: nat)
    ensures v.Split(a).Some? <==> v.Contains(a) && exists c :: PageBoundary(c) && v.start < c <= a
    ensures v.Split(a).Some? ==>
              var (lo, hi) := v.Split(a).value;
              && lo.start == v.start && lo.end == hi.start && hi.end == v.end
              && PageBoundary(lo.end) && v.start < lo.end <= a
              && forall c | PageBoundary(c) && c <= a :: c <= lo.end
  {
    var cut := a - a % PAGE_SIZE;
    assert PageBoundary(cut) by { assert cut == a / PAGE_SIZE * PAGE_SIZE; }
    forall c | PageBoundary(c) && c <= a
      ensures c <= cut
    {
      BoundaryBelow(c, a);
    }
  }

  lemma BoundaryBelow(c: int, a: nat)
    requires PageBoundary(c) && c <= a
    ensures c <= a - a % PAGE_SIZE
  {
    assert c / 0x1000 <= a / 0x1000;
    assert c == c / 0x1000 * 0x1000;
  }

  /** `r` has exactly the addresses of the two areas, with their permissions and type. */
  ghost predicate Unites(r: Area, x: Area, y: Area) {
    && (forall a :: r.Contains(a) <==> x.Contains(a) || y.Contains(a))
    && r.flags == x.flags == y.flags && r.kind == x.kind == y.kind
  }

  /** An area merges with a higher one exactly when some area unites the two, and that is the result. */
  lemma MergeIff(x: Area, y: Area)
    requires x.start < x.end <= y.start < y.end
    ensures x.Merge(y).Some? <==> exists r :: Unites(r, x, y)
    ensures x.Merge(y).Some? ==> Unites(x.Merge(y).value, x, y)
  {
    if r :| Unites(r, x, y) {
      assert r.Contains(x.start) && r.Contains(y.start);
      assert x.Contains(x.start) && y.Contains(y.start);
      assert r.Contains(x.end) ==> x.end == y.start;
    }
    if x.Merge(y).Some? {
      assert Unites(x.Merge(y).value, x, y);
    }
  }

  /** Two mappings of the beginning of a file, one behind the other, are merged although the merged
      area shows the second page of the file in the place of the first. */
  lemma MergeExample(flags: nat)
    ensures var x, y := Area(0, 0x1000, flags, 0, FileBacked), Area(0x1000, 0x2000, flags, 0, FileBacked);
            && x.Merge(y).Some? && x.Merge(y).value.Contains(0x1000)
            && x.Merge(y).value.At(0x1000).position == 0x1000 && y.At(0x1000).position == 0
  {
  }

  /** `merge` does not compare file positions: the merged area shows every address of the second
      area as before exactly when the two areas are contiguous in the file. */
  lemma MergeKeepsViewsIff(x: Area, y: Area)
    requires x.start < x.end && y.start < y.end && x.CanMerge(y)
    ensures (forall a :: y.Contains(a) ==> x.Merge(y).value.Contains(a) && x.Merge(y).value.At(a) == y.At(a))
       <==> y.offset == x.offset + (x.end - x.start)
    ensures forall a :: x.Contains(a) ==> x.Merge(y).value.Contains(a) && x.Merge(y).value.At(a) == x.At(a)
  {
    assert y.Contains(y.start);
  }

  /** The areas of a process, kept in the order of their start addresses. */
  class Manager {
    var areas: seq<Area>
    var count: nat

    ghost predicate Valid()
      reads this
    {
      Ordered(areas) && count == |areas|
    }

    constructor ()
      ensures Valid() && areas == []
    {
      areas, count := [], 0;
    }

    /** `add`: refused exactly when the area overlaps another. */
    method Add(v: Area) returns (ok: bool)
      requires Valid() && v.start < v.end
      modifies this
      ensures Valid()
      ensures ok <==> forall i | 0 <= i < |old(areas)| :: !v.Overlaps(old(areas)[i])
      ensures !ok ==> areas == old(areas)
      ensures ok ==> exists k | 0 <= k <= |old(areas)| :: areas == old(areas)[..k] + [v] + old(areas)[k..]
    {
      for i := 0 to |areas|
        invariant forall j | 0 <= j < i :: !v.Overlaps(areas[j])
      {
        if v.Overlaps(areas[i]) {
          return false;
        }
      }
      var k := 0;
      while k < |areas| && areas[k].start < v.start
        invariant 0 <= k <= |areas|
        invariant forall j | 0 <= j < k :: areas[j].start < v.start
      {
        k := k + 1;
      }
      InsertOrdered(areas, v, k);
      areas := areas[..k] + [v] + areas[k..];
      count := count + 1;
      return true;
    }

    /** `find`: the search from the highest area down stops at the first area that ends at or
        below the address, and still agrees with a search of all areas. */
    method Find(a: nat) returns (r: Option<Area>)
      requires Valid()
      ensures r == Lookup(areas, a)
    {
      var i := |areas|;
      while i > 0
        invariant 0 <= i <= |areas|
        invariant forall j | i <= j < |areas| :: !areas[j].Contains(a)
      {
        i := i - 1;
        if areas[i].Contains(a) {
          LookupAt(areas, a, i);
          return Some(areas[i]);
        }
        if areas[i].end <= a {
          LookupNone(areas, a);
          return None;
        }
      }
      LookupNone(areas, a);
      return None;
    }

    /** `remove` by start address. */
    method Remove(start: nat) returns (ok: bool)
      requires Valid()
      modifies this
      ensures Valid()
      ensures ok <==> exists i :: 0 <= i < |old(areas)| && old(areas)[i].start == start
      ensures !ok ==> areas == old(areas)
      ensures ok ==> forall v :: v in areas <==> v in old(areas) && v.start != start
    {
      for i := 0 to |areas|
        invariant forall j | 0 <= j < i :: areas[j].start != start
      {
        if areas[i].start == start {
          RemoveOrdered(areas, i);
          areas := areas[..i] + areas[i + 1..];
          count := count - 1;
          return true;
        }
      }
      return false;
    }
  }

  ghost function Members(l: seq<Area>): set<Area> { set v | v in l }

  /** The view depends only on which areas there are. */
  lemma SameAreasSameViews(l: seq<Area>, r: seq<Area>, a: nat)
    requires Ordered(l) && Ordered(r) && Members(l) == Members(r)
    ensures ViewAt(l, a) == ViewAt(r, a)
  {
    LookupNone(l, a);
    LookupNone(r, a);
    if i :| 0 <= i < |l| && l[i].Contains(a) {
      assert l[i] in Members(r);
      var j :| 0 <= j < |r| && r[j] == l[i];
      LookupAt(l, a, i);
      LookupAt(r, a, j);
    } else {
      forall j | 0 <= j < |r|
        ensures !r[j].Contains(a)
      {
        assert r[j] in Members(l);
      }
    }
  }

  lemma AddedMembers(l: seq<Area>, l': seq<Area>, v: Area)
    requires exists k | 0 <= k <= |l| :: l' == l[..k] + [v] + l[k..]
    ensures Members(l') == Members(l) + {v}
  {
    var k :| 0 <= k <= |l| && l' == l[..k] + [v] + l[k..];
    assert l == l[..k] + l[k..];
    forall x
      ensures x in l' <==> x in l || x == v
    {
    }
  }

  lemma RemovedMembers(l: seq<Area>, l': seq<Area>, i: nat)
    requires Ordered(l) && i < |l| && forall v :: v in l' <==> v in l && v.start != l[i].start
    ensures Members(l') == Members(l) - {l[i]}
  {
    forall v | v in l && v != l[i]
      ensures v.start != l[i].start
    {
      var j :| 0 <= j < |l| && l[j] == v;
      assert j < i ==> l[j].end <= l[i].start;
      assert i < j ==> l[i].end <= l[j].start;
    }
    assert forall v :: v in Members(l') <==> v in Members(l) - {l[i]};
  }

  lemma SplitMembers(l: seq<Area>, i: nat, lo: Area, hi: Area)
    requires Ordered(l) && i < |l|
    ensures Members(l[..i] + [lo, hi] + l[i + 1..]) == Members(l) - {l[i]} + {lo} + {hi}
  {
    var l' := l[..i] + [lo, hi] + l[i + 1..];
    forall x
      ensures x in l' <==> (x in l && x != l[i]) || x == lo || x == hi
    {
      StartsDiffer(l, i, x);
      if x in l && x != l[i] {
        var j :| 0 <= j < |l| && l[j] == x;
        assert j < i ==> l[j].end <= l[i].start;
        assert i < j ==> l[i].end <= l[j].start;
      }
    }
  }

  /** The areas other than `l[i]` overlap neither half. */
  lemma OtherAreas(l: seq<Area>, i: nat, rest: seq<Area>, half: Area)
    requires i < |l| && Members(rest) == Members(l) - {l[i]}
    requires forall j | 0 <= j < |l| && j != i :: !half.Overlaps(l[j])
    ensures forall j | 0 <= j < |rest| :: !half.Overlaps(rest[j])
  {
    forall j | 0 <= j < |rest|
      ensures !half.Overlaps(rest[j])
    {
      assert rest[j] in Members(rest);
      var k :| 0 <= k < |l| && l[k] == rest[j];
    }
  }

  /** Taking an area out and adding the two halves of its split is never refused, and changes
      neither permissions nor type nor file position of any address. */
  method ReplaceBySplit(m: Manager, i: nat, at: nat) returns (removed: bool, added: bool, addedToo: bool)
    requires m.Valid() && i < |m.areas| && m.areas[i].Split(at).Some?
    modifies m
    ensures m.Valid() && removed && added && addedToo
    ensures forall a :: ViewAt(m.areas, a) == ViewAt(old(m.areas), a)
  {
    ghost var l := m.areas;
    var v := m.areas[i];
    var halves := v.Split(at).value;
    ghost var lo, hi := halves.0, halves.1;
    SplitKeepsViews(l, i, at);
    removed := m.Remove(v.start);
    ghost var rest := m.areas;
    RemovedMembers(l, rest, i);
    OtherAreas(l, i, rest, lo);
    OtherAreas(l, i, rest, hi);
    added := m.Add(halves.0);
    ghost var first := m.areas;
    AddedMembers(rest, first, lo);
    OneMore(rest, first, lo, hi);
    addedToo := m.Add(halves.1);
    AddedMembers(first, m.areas, hi);
    SplitMembers(l, i, lo, hi);
    forall a
      ensures ViewAt(m.areas, a) == ViewAt(l, a)
    {
      SameAreasSameViews(m.areas, l[..i] + [lo, hi] + l[i + 1..], a);
    }
  }

  lemma OneMore(rest: seq<Area>, first: seq<Area>, lo: Area, hi: Area)
    requires Members(first) == Members(rest) + {lo} && !lo.Overlaps(hi)
    requires forall j | 0 <= j < |rest| :: !hi.Overlaps(rest[j])
    ensures forall j | 0 <= j < |first| :: !hi.Overlaps(first[j])
  {
    forall j | 0 <= j < |first|
      ensures !hi.Overlaps(first[j])
    {
      assert first[j] in Members(first);
      if first[j] != lo {
        var k :| 0 <= k < |rest| && rest[k] == first[j];
      }
    }
  }

  lemma InsertOrdered(l: seq<Area>, v: Area, k: nat)
    requires Ordered(l) && v.start < v.end && k <= |l|
    requires forall i | 0 <= i < |l| :: !v.Overlaps(l[i])
    requires forall j | 0 <= j < k :: l[j].start < v.start
    requires k < |l| ==> l[k].start >= v.start
    ensures Ordered(l[..k] + [v] + l[k..])
  {
    var l' := l[..k] + [v] + l[k..];
    forall i, j | 0 <= i < j < |l'|
      ensures l'[i].end <= l'[j].start
    {
      if j == k {
        assert !v.Overlaps(l[i]);
      } else if i == k {
        assert l'[j] == l[j - 1];
        assert !v.Overlaps(l[j - 1]) && (k < j - 1 ==> l[k].end <= l[j - 1].start);
      }
    }
  }

  lemma RemoveOrdered(l: seq<Area>, i: nat)
    requires Ordered(l) && i < |l|
    ensures Ordered(l[..i] + l[i + 1..])
    ensures forall v :: v in l[..i] + l[i + 1..] <==> v in l && v.start != l[i].start
  {
    forall v
      ensures v in l[..i] + l[i + 1..] <==> v in l && v.start != l[i].start
    {
      StartsDiffer(l, i, v);
    }
  }

  lemma StartsDiffer(l: seq<Area>, i: nat, v: Area)
    requires Ordered(l) && i < |l|
    ensures v in l[..i] + l[i + 1..] <==> v in l && v.start != l[i].start
  {
    if v in l && v.start != l[i].start {
      var j :| 0 <= j < |l| && l[j] == v;
      assert v in if j < i then l[..i] else l[i + 1..];
    }
    if v in l[..i] {
      var j :| 0 <= j < i && l[j] == v;
      assert l[j].end <= l[i].start;
    } else if v in l[i + 1..] {
      var j :| i < j < |l| && l[j] == v;
      assert l[i].end <= l[j].start;
    }
  }
}
