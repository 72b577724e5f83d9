/** Sequences as lists: neighbours of a position, and removing one position. */
module Sequences {

  ghost predicate Distinct<T>(l: seq<T>) {
    forall i, j | 0 <= i < j < |l| :: l[i] != l[j]
  }

  /** What a list head and the links of a doubly linked list hold, `nil` standing for nothing. */
  function First(l: seq<nat>, nil: nat): nat { if l == [] then nil else l[0] }

  function Before(l: seq<nat>, i: nat, nil: nat): nat
    requires i < |l|
  {
    if i == 0 then nil else l[i - 1]
  }

  function After(l: seq<nat>, i: nat, nil: nat): nat
    requires i < |l|
  {
    if i + 1 < |l| then l[i + 1] else nil
  }

  function Without<T>(l: seq<T>, i: nat): seq<T>
    requires i < |l|
  {
    l[..i] + l[i + 1..]
  }

  /** Position in `l` of member `j` of `Without(l, i)`. */
  function Origin(i: nat, j: nat): nat { if j < i then j else j + 1 }

  lemma WithoutAt<T>(l: seq<T>, i: nat)
    requires i < |l|
    ensures |Without(l, i)| == |l| - 1
    ensures forall j | 0 <= j < |l| - 1 :: Without(l, i)[j] == l[Origin(i, j)]
  {
  }

  lemma WithoutMembers<T>(l: seq<T>, i: nat, b: T)
    requires i < |l|
    requires forall x, y | 0 <= x < y < |l| :: l[x] != l[y]
    ensures b in Without(l, i) <==> b in l && b != l[i]
  {
    if b in l && b != l[i] {
      var j :| 0 <= j < |l| && l[j] == b;
      assert b == Without(l, i)[if j < i then j else j - 1];
    }
  }

  /** Neighbours after a removal: those next to the gap see across it. */
  lemma NeighboursWithout(l: seq<nat>, i: nat, j: nat, nil: nat)
    requires i < |l| && j < |l| - 1
    ensures var o := Origin(i, j);
            && Without(l, i)[j] == l[o]
            && Before(Without(l, i), j, nil) == Before(l, if o == i + 1 then i else o, nil)
            && After(Without(l, i), j, nil) == After(l, if o + 1 == i then i else o, nil)
  {
  }

  lemma WithoutDistinct<T>(l: seq<T>, i: nat)
    requires i < |l| && Distinct(l)
    ensures Distinct(Without(l, i))
  {
    forall x, y | 0 <= x < y < |l| - 1
      ensures Without(l, i)[x] != Without(l, i)[y]
    {
      assert l[Origin(i, x)] != l[Origin(i, y)];
    }
  }

  lemma WithoutHead<T>(l: seq<T>, i: nat)
    requires i < |l|
    ensures i > 0 ==> Without(l, i) != [] && Without(l, i)[0] == l[0]
    ensures i == 0 ==> Without(l, i) == l[1..]
  {
  }
}
