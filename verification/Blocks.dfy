/** The buddy system seen as a map from the head of each free block to its order.
    A canonical map is determined by the set of free pages alone, so every question of the form
    "does this sequence of allocations and frees restore the allocator?" becomes a question
    about sets of pages. */
module Blocks {
  import opened Bits

  /** Head page frame of each free block, mapped to the block's order. */
  type BlockMap = map<nat, nat>

  ghost predicate InRun(p: nat, h: nat, o: nat) {
    h <= p < h + Pow2(o)
  }

  /** The page frames h .. h + 2^o. */
  ghost function Run(h: nat, o: nat): set<nat> {
    set p | h <= p < h + Pow2(o) && InRun(p, h, o)
  }

  lemma InRunIff(h: nat, o: nat)
    ensures forall p :: p in Run(h, o) <==> InRun(p, h, o)
    ensures h in Run(h, o)
  {
    assert InRun(h, h, o);
  }

  ghost predicate Apart(h: nat, o: nat, h': nat, o': nat) {
    h + Pow2(o) <= h' || h' + Pow2(o') <= h
  }

  /** The other half of the pair of order-o runs that h belongs to. */
  function Buddy(h: nat, o: nat): nat {
    if h == Lower(h, o) then Upper(h, o) else Lower(h, o)
  }

  /** There is a free block of exactly order o at h. */
  predicate IsBlock(b: BlockMap, h: nat, o: nat) {
    h in b && b[h] == o
  }

  /** Blocks are aligned to their order, smaller than 2^maxOrder pages, and disjoint. */
  ghost predicate WellFormed(b: BlockMap, maxOrder: nat) {
    && (forall h :: h in b ==> b[h] < maxOrder && Aligned(h, b[h]))
    && (forall h, h' {:trigger Apart(h, b[h], h', b[h'])} ::
          h in b && h' in b && h != h' ==> Apart(h, b[h], h', b[h']))
  }

  /** No two blocks could still be merged. */
  ghost predicate Merged(b: BlockMap, maxOrder: nat) {
    forall h {:trigger Buddy(h, b[h])} :: h in b && b[h] + 1 < maxOrder ==> !IsBlock(b, Buddy(h, b[h]), b[h])
  }

  ghost predicate Canonical(b: BlockMap, maxOrder: nat) {
    WellFormed(b, maxOrder) && Merged(b, maxOrder)
  }

  ghost function SomeHead(b: BlockMap): (h: nat)
    requires |b| > 0
    ensures h in b
  {
    assert b.Keys != {};
    var h :| h in b.Keys; h
  }

  /** All pages of all blocks. */
  ghost function FreePages(b: BlockMap): set<nat>
    decreases |b|
  {
    if |b| == 0 then {} else
      var h := SomeHead(b);
      Run(h, b[h]) + FreePages(b - {h})
  }

  lemma {:induction false} FreePageOwner(b: BlockMap, p: nat) returns (h: nat)
    requires p in FreePages(b)
    ensures h in b && InRun(p, h, b[h])
    decreases |b|
  {
    h := SomeHead(b);
    if p !in Run(h, b[h]) {
      h := FreePageOwner(b - {h}, p);
    }
  }

  lemma {:induction false} BlockInFreePages(b: BlockMap, h: nat)
    requires h in b
    ensures Run(h, b[h]) <= FreePages(b) && h in FreePages(b)
    decreases |b|
  {
    assert InRun(h, h, b[h]);
    var k := SomeHead(b);
    if h != k {
      BlockInFreePages(b - {k}, h);
    }
  }

  lemma FreePagesAdd(b: BlockMap, h: nat, o: nat)
    requires h !in b
    ensures FreePages(b[h := o]) == FreePages(b) + Run(h, o)
  {
    hide FreePages;
    var r := b[h := o];
    forall p | p in FreePages(r)
      ensures p in FreePages(b) + Run(h, o)
    {
      var k := FreePageOwner(r, p);
      if k != h { BlockInFreePages(b, k); }
    }
    forall p | p in FreePages(b) + Run(h, o)
      ensures p in FreePages(r)
    {
      var k := h;
      if p !in Run(h, o) { k := FreePageOwner(b, p); }
      BlockInFreePages(r, k);
    }
  }

  /** The run (h, o) holds no free page exactly if it overlaps no block. */
  lemma UnfreeIffApart(b: BlockMap, h: nat, o: nat)
    ensures Run(h, o) !! FreePages(b) <==> forall k :: k in b ==> Apart(h, o, k, b[k])
  {
    hide FreePages;
    if Run(h, o) !! FreePages(b) {
      forall k | k in b
        ensures Apart(h, o, k, b[k])
      {
        BlockInFreePages(b, k);
        var p := if h < k then k else h;
        assert !(p in Run(h, o) && p in Run(k, b[k]));
      }
    } else {
      var p :| p in Run(h, o) && p in FreePages(b);
      var k := FreePageOwner(b, p);
      assert InRun(p, h, o) && !Apart(h, o, k, b[k]);
    }
  }

  lemma BlocksApart(b: BlockMap, maxOrder: nat, h: nat, h': nat)
    requires WellFormed(b, maxOrder) && h in b && h' in b && h != h'
    ensures Apart(h, b[h], h', b[h'])
  {
  }

  lemma BuddyBuddy(h: nat, o: nat)
    requires Aligned(h, o)
    ensures Buddy(h, o) != h && Buddy(Buddy(h, o), o) == h && Aligned(Buddy(h, o), o)
    ensures Aligned(Lower(h, o), o + 1) && Lower(Buddy(h, o), o) == Lower(h, o)
    ensures Run(Lower(h, o), o + 1) == Run(h, o) + Run(Buddy(h, o), o)
    ensures Run(h, o) !! Run(Buddy(h, o), o)
  {
    hide Aligned, Lower, Pow2;
    var l := Lower(h, o);
    Halves(h, o);
    PairOfRun(l, o);
    Double(0, o);
    assert forall p :: InRun(p, l, o + 1) <==> InRun(p, l, o) || InRun(p, Upper(h, o), o);
  }

  /** The allocator's index arithmetic inside a maximal block yields the buddy and the pair. */
  lemma BuddyIndex(x: nat, o: nat, maxOrder: nat)
    requires Aligned(x, o) && o < maxOrder
    ensures var idx := And(x, Pow2(maxOrder) - 1);
      && x + Xor(idx, Pow2(o)) - idx == Buddy(x, o)
      && x + And(Xor(idx, Pow2(o)), idx) - idx == Lower(x, o)
      && And(Lower(x, o), Pow2(maxOrder) - 1) == And(Xor(idx, Pow2(o)), idx)
  {
    hide Aligned, Lower, Upper, Xor, And, Pow2;
    MaskedIndex(x, o, maxOrder);
  }

  // ---------------------------------------------------------------- canonical form

  /** In a canonical map an aligned run of free pages never spans two blocks. */
  lemma {:induction false} RunInsideBlock(b: BlockMap, maxOrder: nat, a: nat, k: nat) returns (h: nat)
    requires Canonical(b, maxOrder) && k < maxOrder
    requires Aligned(a, k) && Run(a, k) <= FreePages(b)
    ensures h in b && k <= b[h] && h <= a && a + Pow2(k) <= h + Pow2(b[h])
    decreases k
  {
    hide FreePages, Aligned, Lower;
    if k == 0 {
      assert Pow2(0) == 1 && a in Run(a, 0);
      h := FreePageOwner(b, a);
    } else {
      var mid := a + Pow2(k - 1);
      PairOfRun(a, k - 1);
      Double(0, k - 1);
      assert Buddy(a, k - 1) == mid;
      assert Run(a, k - 1) <= Run(a, k) && Run(mid, k - 1) <= Run(a, k);
      h := RunInsideBlock(b, maxOrder, a, k - 1);
      var h' := RunInsideBlock(b, maxOrder, mid, k - 1);
      assert b[h] == k - 1 ==> h == a;
      assert b[h'] == k - 1 ==> h' == mid;
      if b[h] >= k {
        Nested(a, k, h, b[h]);
      } else if b[h'] >= k {
        Nested(a, k, h', b[h']);
        h := h';
      } else {
        assert false;
      }
    }
  }

  /** The blocks of a canonical map are exactly the maximal aligned runs of free pages. */
  ghost predicate MaximalRun(free: set<nat>, h: nat, o: nat, maxOrder: nat) {
    && o < maxOrder && Aligned(h, o) && Run(h, o) <= free
    && (o + 1 < maxOrder ==> !(Run(Lower(h, o), o + 1) <= free))
  }

  lemma BlockIsMaximalRun(b: BlockMap, maxOrder: nat, h: nat, o: nat)
    requires Canonical(b, maxOrder) && IsBlock(b, h, o)
    ensures MaximalRun(FreePages(b), h, o, maxOrder)
  {
    hide FreePages, Aligned, Lower, Upper;
    BlockInFreePages(b, h);
    BuddyBuddy(h, o);
    assert h in Run(h, o);
    if o + 1 < maxOrder && Run(Lower(h, o), o + 1) <= FreePages(b) {
      var k := RunInsideBlock(b, maxOrder, Lower(h, o), o + 1);
      assert InRun(h, Lower(h, o), o + 1) && InRun(h, k, b[k]);
      BlocksApart(b, maxOrder, h, k);
      assert false;
    }
  }

  lemma MaximalRunIsBlock(b: BlockMap, maxOrder: nat, h: nat, o: nat)
    requires Canonical(b, maxOrder) && MaximalRun(FreePages(b), h, o, maxOrder)
    ensures IsBlock(b, h, o)
  {
    hide FreePages, Aligned, Lower, Upper;
    var k := RunInsideBlock(b, maxOrder, h, o);
    if b[k] > o {
      var l := Lower(h, o);
      BuddyBuddy(h, o);
      InRunIff(h, o);
      InRunIff(l, o + 1);
      InRunIff(k, b[k]);
      Nested(l, o + 1, k, b[k]);
      assert Run(l, o + 1) <= Run(k, b[k]);
      BlockInFreePages(b, k);
      assert false;
    }
  }

  lemma BlockIffMaximalRun(b: BlockMap, maxOrder: nat, h: nat, o: nat)
    requires Canonical(b, maxOrder)
    ensures IsBlock(b, h, o) <==> MaximalRun(FreePages(b), h, o, maxOrder)
  {
    if IsBlock(b, h, o) { BlockIsMaximalRun(b, maxOrder, h, o); }
    if MaximalRun(FreePages(b), h, o, maxOrder) { MaximalRunIsBlock(b, maxOrder, h, o); }
  }

  /** Two canonical maps with the same free pages are the same map. */
  lemma CanonicalUnique(b: BlockMap, b': BlockMap, maxOrder: nat)
    requires Canonical(b, maxOrder) && Canonical(b', maxOrder)
    requires FreePages(b) == FreePages(b')
    ensures b == b'
  {
    hide FreePages, MaximalRun, Canonical;
    forall h, o: nat
      ensures IsBlock(b, h, o) <==> IsBlock(b', h, o)
    {
      BlockIffMaximalRun(b, maxOrder, h, o);
      BlockIffMaximalRun(b', maxOrder, h, o);
    }
    assert forall h :: h in b ==> IsBlock(b, h, b[h]);
    assert forall h :: h in b' ==> IsBlock(b', h, b'[h]);
  }

  // ---------------------------------------------------------------- freeing and allocating

  lemma RemoveBlock(b: BlockMap, h: nat, maxOrder: nat)
    requires Canonical(b, maxOrder) && h in b
    ensures Canonical(b - {h}, maxOrder)
    ensures Run(h, b[h]) <= FreePages(b)
    ensures FreePages(b - {h}) == FreePages(b) - Run(h, b[h])
  {
    hide FreePages, Aligned, Lower, Upper, Buddy, Pow2;
    var r := b - {h};
    assert r[h := b[h]] == b;
    FreePagesAdd(r, h, b[h]);
    forall k | k in r
      ensures Apart(h, b[h], k, r[k])
    {
      BlocksApart(b, maxOrder, h, k);
    }
    UnfreeIffApart(r, h, b[h]);
    forall k | k in r && r[k] + 1 < maxOrder
      ensures !IsBlock(r, Buddy(k, r[k]), r[k])
    {
      assert !IsBlock(b, Buddy(k, b[k]), b[k]);
    }
  }

  lemma AddBlock(b: BlockMap, h: nat, o: nat, maxOrder: nat)
    requires Canonical(b, maxOrder) && o < maxOrder && Aligned(h, o)
    requires Run(h, o) !! FreePages(b)
    requires o + 1 < maxOrder ==> !IsBlock(b, Buddy(h, o), o)
    ensures h !in b && Canonical(b[h := o], maxOrder)
    ensures FreePages(b[h := o]) == FreePages(b) + Run(h, o)
  {
    hide FreePages, Aligned, Lower, Upper, Buddy, Pow2;
    assert InRun(h, h, o);
    assert h !in b by {
      assert h in Run(h, o);
      if h in b { BlockInFreePages(b, h); }
    }
    var r := b[h := o];
    FreePagesAdd(b, h, o);
    UnfreeIffApart(b, h, o);
    forall k, k' | k in r && k' in r && k != k'
      ensures Apart(k, r[k], k', r[k'])
    {
      if k != h && k' != h { BlocksApart(b, maxOrder, k, k'); }
    }
    forall k | k in r && r[k] + 1 < maxOrder
      ensures !IsBlock(r, Buddy(k, r[k]), r[k])
    {
      BuddyBuddy(k, r[k]);
      if k != h { assert !IsBlock(b, Buddy(k, b[k]), b[k]); }
    }
  }

  /** What freeing the run (h, o) does to the blocks: merge while the buddy is free. */
  function Coalesce(b: BlockMap, h: nat, o: nat, maxOrder: nat): BlockMap
    decreases maxOrder - o
  {
    if o + 1 < maxOrder && IsBlock(b, Buddy(h, o), o)
    then Coalesce(b - {Buddy(h, o)}, Lower(h, o), o + 1, maxOrder)
    else b[h := o]
  }

  lemma {:induction false} CoalesceCanonical(b: BlockMap, h: nat, o: nat, maxOrder: nat)
    requires Canonical(b, maxOrder) && o < maxOrder && Aligned(h, o)
    requires Run(h, o) !! FreePages(b)
    ensures Canonical(Coalesce(b, h, o, maxOrder), maxOrder)
    ensures FreePages(Coalesce(b, h, o, maxOrder)) == FreePages(b) + Run(h, o)
    decreases maxOrder - o
  {
    hide FreePages, Canonical, Aligned, Lower, Upper, Buddy, Pow2;
    var y := Buddy(h, o);
    BuddyBuddy(h, o);
    if o + 1 < maxOrder && IsBlock(b, y, o) {
      RemoveBlock(b, y, maxOrder);
      CoalesceCanonical(b - {y}, Lower(h, o), o + 1, maxOrder);
    } else {
      AddBlock(b, h, o, maxOrder);
    }
  }

  /** What splitting the run (h, high) down to order low adds to the blocks: every upper half. */
  function Split(b: BlockMap, h: nat, low: nat, high: nat): BlockMap
    requires low <= high
    decreases high
  {
    if high == low then b else Split(b[h + Pow2(high - 1) := high - 1], h, low, high - 1)
  }

  /** The two halves of the run (h, o + 1). */
  lemma SplitRun(h: nat, o: nat)
    requires Aligned(h, o + 1)
    ensures var u := h + Pow2(o);
      && Aligned(h, o) && Aligned(u, o) && Buddy(u, o) == h
      && Run(h, o + 1) == Run(h, o) + Run(u, o) && Run(h, o) !! Run(u, o) && h in Run(h, o)
  {
    hide Aligned, Lower, Pow2;
    PairOfRun(h, o);
    BuddyBuddy(h, o);
    Double(0, o);
    assert InRun(h, h, o);
  }

  lemma {:induction false} SplitCanonical(b: BlockMap, h: nat, low: nat, high: nat, maxOrder: nat)
    requires Canonical(b, maxOrder) && low <= high < maxOrder && Aligned(h, high)
    requires Run(h, high) !! FreePages(b)
    ensures Canonical(Split(b, h, low, high), maxOrder)
    ensures FreePages(Split(b, h, low, high)) == FreePages(b) + (Run(h, high) - Run(h, low))
    ensures Run(h, low) <= Run(h, high) && Aligned(h, low)
    decreases high
  {
    hide FreePages, Canonical, Aligned, Lower, Upper, Buddy, Pow2;
    if high > low {
      var o := high - 1;
      var u := h + Pow2(o);
      SplitRun(h, o);
      if h in b { BlockInFreePages(b, h); }
      AddBlock(b, u, o, maxOrder);
      SplitCanonical(b[u := o], h, low, o, maxOrder);
    }
  }

  /** Taking the block at h and giving back all but its first 2^o pages. */
  function Allocate(b: BlockMap, h: nat, o: nat): BlockMap
    requires h in b && o <= b[h]
  {
    Split(b - {h}, h, o, b[h])
  }

  lemma AllocateCanonical(b: BlockMap, h: nat, o: nat, maxOrder: nat)
    requires Canonical(b, maxOrder) && h in b && o <= b[h]
    ensures Canonical(Allocate(b, h, o), maxOrder)
    ensures Run(h, o) <= FreePages(b) && Aligned(h, o)
    ensures FreePages(Allocate(b, h, o)) == FreePages(b) - Run(h, o)
  {
    hide FreePages, Aligned, Lower, Upper, Buddy, Pow2, Merged;
    RemoveBlock(b, h, maxOrder);
    SplitCanonical(b - {h}, h, o, b[h], maxOrder);
  }

  /** Allocating from any block, with any split, and freeing again restores every block. */
  lemma AllocateFreeRoundTrip(b: BlockMap, h: nat, o: nat, maxOrder: nat)
    requires Canonical(b, maxOrder) && h in b && o <= b[h]
    ensures Coalesce(Allocate(b, h, o), h, o, maxOrder) == b
  {
    hide FreePages, Aligned, Merged, Coalesce, Allocate;
    AllocateCanonical(b, h, o, maxOrder);
    CoalesceCanonical(Allocate(b, h, o), h, o, maxOrder);
    CanonicalUnique(b, Coalesce(Allocate(b, h, o), h, o, maxOrder), maxOrder);
  }
}
