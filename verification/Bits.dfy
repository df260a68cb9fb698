/** Powers of two, alignment and the bit operations of the buddy system:
    page_idx ^ (1 << order) and buddy_idx & page_idx. */
module Bits {

  /** 1 << n, without a word width. */
  function Pow2(n: nat): (p: nat)
    ensures p >= 1
  {
    if n == 0 then 1 else 2 * Pow2(n - 1)
  }

  /** Bitwise exclusive or of two naturals. */
  function Xor(x: nat, y: nat): nat {
    if x == 0 && y == 0 then 0 else (if x % 2 == y % 2 then 0 else 1) + 2 * Xor(x / 2, y / 2)
  }

  /** Bitwise and of two naturals. */
  function And(x: nat, y: nat): nat {
    if x == 0 || y == 0 then 0
    else (if x % 2 == 1 && y % 2 == 1 then 1 else 0) + 2 * And(x / 2, y / 2)
  }

  /** The low n bits of x are zero. */
  predicate Aligned(x: nat, n: nat) {
    n == 0 || (x % 2 == 0 && Aligned(x / 2, n - 1))
  }

  /** The start of the pair of order-n runs that x belongs to: x & ~(1 << n). */
  function Lower(x: nat, n: nat): (l: nat)
    ensures l <= x
  {
    if n == 0 then x - x % 2 else 2 * Lower(x / 2, n - 1) + x % 2
  }

  /** The upper half of x's pair: x | (1 << n). */
  function Upper(x: nat, n: nat): nat {
    Lower(x, n) + Pow2(n)
  }

  /** x & ~((1 << n) - 1). */
  function AlignDown(x: nat, n: nat): (a: nat)
    ensures a <= x < a + Pow2(n)
  {
    if n == 0 then x else 2 * AlignDown(x / 2, n - 1)
  }

  /** x >> n. */
  function Shr(x: nat, n: nat): nat {
    if n == 0 then x else Shr(x / 2, n - 1)
  }

  // ---------------------------------------------------------------- one bit at a time

  /** Everything the proofs below need about the last bit; they recurse on x / 2. */
  lemma LastBit(x: nat, n: nat)
    requires n > 0 && Aligned(x, n)
    ensures x == 2 * (x / 2) && Aligned(x / 2, n - 1)
  {
  }

  lemma Double(y: nat, n: nat)
    ensures Pow2(n + 1) == 2 * Pow2(n)
    ensures Aligned(2 * y, n + 1) == Aligned(y, n)
    ensures Lower(2 * y, n + 1) == 2 * Lower(y, n)
    ensures Upper(2 * y, n + 1) == 2 * Upper(y, n)
  {
    assert (2 * y) / 2 == y && (2 * y) % 2 == 0;
  }

  lemma AlignedOne(x: nat)
    ensures Aligned(x, 0) && (Aligned(x, 1) <==> x % 2 == 0)
  {
  }

  /** Pairs of single pages. */
  lemma LastPair(x: nat)
    ensures Pow2(0) == 1 && Lower(x, 0) == x - x % 2 && Upper(x, 0) == x - x % 2 + 1
    ensures Aligned(x, 0) && (Aligned(x, 1) <==> x % 2 == 0)
    ensures Aligned(Lower(x, 0), 1) && Aligned(Upper(x, 0), 0) && !Aligned(Upper(x, 0), 1)
  {
    hide *;
    OrderZero(x);
    AlignedOne(x);
    AlignedOne(x - x % 2);
    AlignedOne(x - x % 2 + 1);
    assert x % 2 == 0 || x % 2 == 1;
  }

  lemma OrderZero(x: nat)
    ensures Pow2(0) == 1 && Lower(x, 0) == x - x % 2 && Upper(x, 0) == x - x % 2 + 1
  {
  }

  lemma DoubleBits(y: nat, z: nat)
    ensures Xor(2 * y, 2 * z) == 2 * Xor(y, z) && And(2 * y, 2 * z) == 2 * And(y, z)
  {
    assert (2 * y) / 2 == y && (2 * y) % 2 == 0;
    assert (2 * z) / 2 == z && (2 * z) % 2 == 0;
  }

  /** Masking with the low m + 1 bits keeps the last bit and masks the rest with m bits. */
  lemma MaskStep(x: nat, m: nat)
    ensures And(x, Pow2(m + 1) - 1) == 2 * And(x / 2, Pow2(m) - 1) + x % 2
  {
    var k := Pow2(m + 1) - 1;
    assert k % 2 == 1 && k / 2 == Pow2(m) - 1;
    if x == 0 { assert And(x / 2, Pow2(m) - 1) == 0; }
  }

  // ---------------------------------------------------------------- alignment

  /** Aligned is the test page_idx & ((1 << order) - 1) of the allocator's assertions. */
  lemma {:induction false} AlignedIsMaskTest(x: nat, n: nat)
    ensures Aligned(x, n) <==> And(x, Pow2(n) - 1) == 0
    decreases n
  {
    if n > 0 {
      AlignedIsMaskTest(x / 2, n - 1);
      MaskStep(x, n - 1);
    }
  }

  /** Every aligned run is the lower or the upper half of one run of the next order. */
  lemma {:induction false} Halves(x: nat, n: nat)
    requires Aligned(x, n)
    ensures Aligned(Lower(x, n), n + 1)
    ensures Aligned(Upper(x, n), n) && !Aligned(Upper(x, n), n + 1)
    ensures x == Lower(x, n) || x == Upper(x, n)
    decreases n
  {
    hide *;
    if n == 0 {
      LastPair(x);
    } else {
      var y := x / 2;
      LastBit(x, n);
      Halves(y, n - 1);
      Double(y, n - 1);
      Double(Lower(y, n - 1), n);
      Double(Upper(y, n - 1), n - 1);
      Double(Upper(y, n - 1), n);
    }
  }

  /** A run of order n + 1 is the pair of its two halves. */
  lemma {:induction false} PairOfRun(x: nat, n: nat)
    requires Aligned(x, n + 1)
    ensures Aligned(x, n) && Aligned(x + Pow2(n), n) && !Aligned(x + Pow2(n), n + 1)
    ensures Lower(x, n) == x && Lower(x + Pow2(n), n) == x
    decreases n
  {
    hide *;
    if n == 0 {
      LastBit(x, 1);
      LastPair(x);
      LastPair(x + 1);
    } else {
      var y := x / 2;
      LastBit(x, n + 1);
      PairOfRun(y, n - 1);
      Double(y, n - 1);
      Double(y + Pow2(n - 1), n - 1);
      Double(y + Pow2(n - 1), n);
    }
  }

  /** Two aligned runs are nested or disjoint. */
  lemma {:induction false} Nested(a: nat, i: nat, b: nat, j: nat)
    requires Aligned(a, i) && Aligned(b, j) && i <= j
    requires a < b + Pow2(j) && b < a + Pow2(i)
    ensures b <= a && a + Pow2(i) <= b + Pow2(j)
    decreases i
  {
    if i > 0 { Nested(a / 2, i - 1, b / 2, j - 1); }
  }

  // ---------------------------------------------------------------- buddies

  lemma {:induction false} XorZero(x: nat)
    ensures Xor(x, 0) == x
  {
    if x > 0 { XorZero(x / 2); }
  }

  lemma {:induction false} AndSelf(x: nat)
    ensures And(x, x) == x
  {
    if x > 0 { AndSelf(x / 2); }
  }

  lemma FlipLastBit(x: nat)
    ensures Xor(x, 1) == x - x % 2 + (1 - x % 2) && And(Xor(x, 1), x) == x - x % 2
  {
    XorZero(x / 2);
    AndSelf(x / 2);
    var f := Xor(x, 1);
    assert f == (1 - x % 2) + 2 * (x / 2);
    assert f % 2 != x % 2 && f / 2 == x / 2;
  }

  /** x ^ (1 << n) is the other half of x's pair, and and-ing the two gives the lower half. */
  lemma {:induction false} XorIsOtherHalf(x: nat, n: nat)
    requires Aligned(x, n)
    ensures Xor(x, Pow2(n)) == if x == Lower(x, n) then Upper(x, n) else Lower(x, n)
    ensures And(Xor(x, Pow2(n)), x) == Lower(x, n)
    decreases n
  {
    hide *;
    LastPair(x);
    if n == 0 {
      FlipLastBit(x);
    } else {
      var y := x / 2;
      LastBit(x, n);
      XorIsOtherHalf(y, n - 1);
      Double(y, n - 1);
      DoubleBits(y, Pow2(n - 1));
      DoubleBits(Xor(y, Pow2(n - 1)), y);
    }
  }

  lemma {:induction false} MaskedLower(x: nat, n: nat, m: nat)
    requires Aligned(x, n) && n < m
    ensures var idx := And(x, Pow2(m) - 1);
      && Aligned(idx, n) && idx - Lower(idx, n) == x - Lower(x, n)
      && And(Lower(x, n), Pow2(m) - 1) == Lower(idx, n)
    decreases n
  {
    hide *;
    var idx := And(x, Pow2(m) - 1);
    MaskStep(x, m - 1);
    MaskStep(Lower(x, n), m - 1);
    LastPair(x);
    LastPair(idx);
    if n > 0 {
      var y := x / 2;
      var idy := And(y, Pow2(m - 1) - 1);
      LastBit(x, n);
      MaskedLower(y, n - 1, m - 1);
      Double(y, n - 1);
      Double(idy, n - 1);
    }
  }

  /** The distances to the buddy and to the pair's start, computed on the index inside a
      maximal block as the allocator does, are those of the frame number itself. */
  lemma MaskedIndex(x: nat, n: nat, m: nat)
    requires Aligned(x, n) && n < m
    ensures var idx := And(x, Pow2(m) - 1);
      && Aligned(idx, n)
      && x + Xor(idx, Pow2(n)) - idx == (if x == Lower(x, n) then Upper(x, n) else Lower(x, n))
      && x + And(Xor(idx, Pow2(n)), idx) - idx == Lower(x, n)
      && And(Lower(x, n), Pow2(m) - 1) == And(Xor(idx, Pow2(n)), idx)
  {
    hide Aligned, Lower, Xor, And, Pow2;
    MaskedLower(x, n, m);
    XorIsOtherHalf(And(x, Pow2(m) - 1), n);
  }

  // ---------------------------------------------------------------- shifts

  lemma {:induction false} ShrBelow(x: nat, n: nat)
    ensures Shr(x, n) <= x
    decreases n
  {
    if n > 0 { ShrBelow(x / 2, n - 1); }
  }

  lemma {:induction false} ShrNext(x: nat, n: nat)
    ensures Shr(x + Pow2(n), n) == Shr(x, n) + 1
    decreases n
  {
    if n > 0 { ShrNext(x / 2, n - 1); }
  }

  lemma {:induction false} Pow2Split(i: nat, j: nat)
    ensures Pow2(i + j) == Pow2(i) * Pow2(j)
  {
    if i > 0 {
      Pow2Split(i - 1, j);
      Associate(Pow2(i - 1), Pow2(j));
      assert Pow2(i + j) == 2 * Pow2(i - 1 + j);
    }
  }

  lemma Associate(p: nat, q: nat)
    ensures 2 * (p * q) == (2 * p) * q
  {
  }
}
