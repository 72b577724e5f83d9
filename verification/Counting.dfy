/** Sizes of finite sets. */
module Counting {

  /** A list without repetition has as many entries as members. */
  lemma {:induction false} DistinctSize(l: seq<nat>, elems: set<nat>)
    requires forall i, j | 0 <= i < j < |l| :: l[i] != l[j]
    requires forall x :: x in l <==> x in elems
    ensures |elems| == |l|
    decreases |l|
  {
    if l == [] {
      assert elems == {};
    } else {
      var n := |l| - 1;
      assert forall x :: x in l[..n] <==> x in elems - {l[n]};
      DistinctSize(l[..n], elems - {l[n]});
      assert l[n] in l;
    }
  }

  /** The numbers from `a` up to `b`. */
  lemma {:induction false} RangeSize(a: nat, b: nat, elems: set<nat>)
    requires a <= b && forall x: nat :: x in elems <==> a <= x < b
    ensures |elems| == b - a
    decreases b
  {
    if a < b {
      RangeSize(a, b - 1, elems - {b - 1});
      assert b - 1 in elems;
    } else {
      assert elems == {};
    }
  }

  lemma {:induction false} SubsetSize(x: set<nat>, y: set<nat>)
    requires x <= y
    ensures |x| <= |y|
  {
    if x != {} {
      var e :| e in x;
      SubsetSize(x - {e}, y - {e});
    }
  }
}
