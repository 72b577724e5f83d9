/** Powers of two, alignment and exclusive-or on natural numbers.

    The kernel works on 64-bit words; every number handled here stays far below 2^64,
    so words are modelled by `nat` and exclusive-or by its bit-by-bit definition.
  */
module Bits {

  function Pow2(k: nat): (r: nat)
    ensures r >= 1
  {
    if k == 0 then 1 else 2 * Pow2(k - 1)
  }

  /** Bitwise exclusive-or. */
  function Xor(a: nat, b: nat): nat
    decreases a + b
  {
    if a == 0 && b == 0 then 0
    else (a % 2 + b % 2) % 2 + 2 * Xor(a / 2, b / 2)
  }

  /** Bit `k` of `b`. */
  function Bit(b: nat, k: nat): nat
  {
    if k == 0 then b % 2 else Bit(b / 2, k - 1)
  }

  /** The low `k` bits of `b` are clear. */
  predicate Aligned(b: nat, k: nat)
  {
    k == 0 || (b % 2 == 0 && Aligned(b / 2, k - 1))
  }

  lemma {:induction false} Pow2Monotone(j: nat, k: nat)
    requires j <= k
    ensures Pow2(j) <= Pow2(k)
  {
    if j < k {
      Pow2Monotone(j, k - 1);
    }
  }

  lemma {:induction false} Pow2Add(j: nat, k: nat)
    ensures Pow2(j + k) == Pow2(j) * Pow2(k)
  {
    if k > 0 {
      Pow2Add(j, k - 1);
      assert Pow2(j + k) == 2 * (Pow2(j) * Pow2(k - 1));
    }
  }

  /** `Aligned` is divisibility by the power of two. */
  lemma {:induction false} AlignedIsMultiple(b: nat, k: nat)
    ensures Aligned(b, k) <==> b % Pow2(k) == 0
  {
    if k > 0 {
      AlignedIsMultiple(b / 2, k - 1);
      HalveMod(b, Pow2(k - 1));
    }
  }

  lemma HalveMod(b: nat, d: nat)
    requires d >= 1
    ensures b % (2 * d) == 2 * ((b / 2) % d) + b % 2
  {
    var q, r := (b / 2) / d, (b / 2) % d;
    assert b == 2 * (q * d + r) + b % 2;
    assert b == q * (2 * d) + (2 * r + b % 2);
    ModUnique(b, 2 * d, q, 2 * r + b % 2);
  }

  lemma ModUnique(a: nat, d: nat, q: nat, r: nat)
    requires d > 0 && r < d && a == q * d + r
    ensures a % d == r && a / d == q
  {
    var q', r' := a / d, a % d;
    assert a == q' * d + r';
    assert (q - q') * d == r' - r;
    if q < q' {
      MulMono(q - q', -1, d);
    } else if q > q' {
      MulMono(1, q - q', d);
    }
  }

  lemma MulMono(x: int, y: int, d: nat)
    requires x <= y
    ensures x * d <= y * d
  {
  }

  lemma {:induction false} AlignedZero(k: nat)
    ensures Aligned(0, k)
  {
    if k > 0 {
      AlignedZero(k - 1);
    }
  }

  /** Both halves of an aligned block are aligned to the half size. */
  lemma {:induction false} AlignedHalves(b: nat, k: nat)
    requires Aligned(b, k + 1)
    ensures Aligned(b, k) && Aligned(b + Pow2(k), k)
    ensures Bit(b, k) == 0 && Bit(b + Pow2(k), k) == 1
  {
    if k > 0 {
      AlignedHalves(b / 2, k - 1);
      assert (b + Pow2(k)) / 2 == b / 2 + Pow2(k - 1);
    }
  }

  /** Exclusive-or with a single bit adds or subtracts that power of two. */
  lemma {:induction false} XorPow2(b: nat, k: nat)
    ensures Bit(b, k) == 0 ==> Xor(b, Pow2(k)) == b + Pow2(k)
    ensures Bit(b, k) == 1 ==> b >= Pow2(k) && Xor(b, Pow2(k)) == b - Pow2(k)
    ensures Bit(b, k) == 0 || Bit(b, k) == 1
  {
    if k == 0 {
      XorZero(b / 2);
      assert Xor(b, 1) == (b % 2 + 1) % 2 + 2 * Xor(b / 2, 0);
    } else {
      var p := Pow2(k - 1);
      XorPow2(b / 2, k - 1);
      XorEven(b, p);
      assert Pow2(k) == 2 * p;
    }
  }

  lemma XorEven(b: nat, p: nat)
    requires p > 0
    ensures Xor(b, 2 * p) == b % 2 + 2 * Xor(b / 2, p)
  {
    assert (2 * p) % 2 == 0 && (2 * p) / 2 == p;
  }

  lemma {:induction false} XorZero(b: nat)
    ensures Xor(b, 0) == b
  {
    if b > 0 {
      XorZero(b / 2);
    }
  }

  /** The base of a buddy pair is aligned to the doubled size. */
  lemma {:induction false} AlignedPair(b: nat, k: nat)
    requires Aligned(b, k)
    ensures Bit(b, k) == 0 ==> Aligned(b, k + 1)
    ensures Bit(b, k) == 1 ==> b >= Pow2(k) && Aligned(b - Pow2(k), k + 1)
  {
    if k == 0 {
      if b % 2 == 1 {
        assert Aligned((b - 1) / 2, 0);
      }
    } else {
      AlignedPair(b / 2, k - 1);
      if Bit(b, k) == 1 {
        assert (b - Pow2(k)) / 2 == b / 2 - Pow2(k - 1);
      }
    }
  }

  /** An aligned block that starts inside a larger aligned block ends inside it. */
  lemma {:induction false} AlignedNested(b: nat, k: nat, c: nat, j: nat)
    requires Aligned(b, k) && Aligned(c, j) && k <= j
    requires c <= b < c + Pow2(j)
    ensures b + Pow2(k) <= c + Pow2(j)
  {
    if k > 0 {
      AlignedNested(b / 2, k - 1, c / 2, j - 1);
    }
  }
}
