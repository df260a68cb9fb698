/** Counting: how many blocks of each order there are, and how many pages they hold. */
module BlockCounts {
  import opened Bits
  import opened Blocks

  /** The heads of the free blocks of order o. */
  function HeadsOfOrder(b: BlockMap, o: nat): set<nat> {
    set h | h in b && b[h] == o
  }

  /** The pages held by blocks of the orders from .. |nr|, given the number of blocks per order. */
  function PagesFrom(nr: seq<int>, from: nat): int
    requires from <= |nr|
    decreases |nr| - from
  {
    if from == |nr| then 0 else nr[from] * Pow2(from) + PagesFrom(nr, from + 1)
  }

  /** The per-order counts of a block map. */
  function Counts(b: BlockMap, maxOrder: nat): (nr: seq<int>)
    ensures |nr| == maxOrder
    ensures forall o: nat :: o < maxOrder ==> nr[o] == |HeadsOfOrder(b, o)|
  {
    seq(maxOrder, o requires 0 <= o < maxOrder => |HeadsOfOrder(b, o)|)
  }

  lemma {:induction false} RunCardinality(h: nat, o: nat)
    ensures |Run(h, o)| == Pow2(o)
    decreases o
  {
    if o == 0 {
      InRunIff(h, 0);
      assert Run(h, 0) == {h};
    } else {
      var mid := h + Pow2(o - 1);
      RunCardinality(h, o - 1);
      RunCardinality(mid, o - 1);
      InRunIff(h, o);
      InRunIff(h, o - 1);
      InRunIff(mid, o - 1);
      assert forall p :: InRun(p, h, o) <==> InRun(p, h, o - 1) || InRun(p, mid, o - 1);
      assert Run(h, o) == Run(h, o - 1) + Run(mid, o - 1);
    }
  }

  /** Changing one entry of nr by d changes the number of pages by d * 2^o. */
  lemma {:induction false} PagesFromUpdate(nr: seq<int>, from: nat, o: nat, d: int)
    requires from <= |nr| && o < |nr|
    ensures PagesFrom(nr[o := nr[o] + d], from) == PagesFrom(nr, from) + (if from <= o then d * Pow2(o) else 0)
    decreases |nr| - from
  {
    if from < |nr| {
      PagesFromUpdate(nr, from + 1, o, d);
      if from == o {
        assert (nr[o] + d) * Pow2(o) == nr[o] * Pow2(o) + d * Pow2(o);
      }
    }
  }

  lemma {:induction false} PagesFromZero(nr: seq<int>, from: nat)
    requires from <= |nr| && forall o :: from <= o < |nr| ==> nr[o] == 0
    ensures PagesFrom(nr, from) == 0
    decreases |nr| - from
  {
    if from < |nr| { PagesFromZero(nr, from + 1); }
  }

  lemma CountsRemove(b: BlockMap, h: nat, maxOrder: nat)
    requires h in b && b[h] < maxOrder
    ensures var nr := Counts(b, maxOrder);
      Counts(b - {h}, maxOrder) == nr[b[h] := nr[b[h]] - 1]
  {
    forall o: nat | o < maxOrder
      ensures |HeadsOfOrder(b - {h}, o)| == |HeadsOfOrder(b, o)| - (if o == b[h] then 1 else 0)
    {
      assert HeadsOfOrder(b - {h}, o) == HeadsOfOrder(b, o) - {h};
    }
  }

  lemma CountsAdd(b: BlockMap, h: nat, o: nat, maxOrder: nat)
    requires h !in b && o < maxOrder
    ensures var nr := Counts(b, maxOrder);
      Counts(b[h := o], maxOrder) == nr[o := nr[o] + 1]
  {
    CountsRemove(b[h := o], h, maxOrder);
    assert b[h := o] - {h} == b;
  }

  /** The number of free pages is the sum over all orders of the block count times 2^order. */
  lemma {:induction false} FreePagesCount(b: BlockMap, maxOrder: nat)
    requires Canonical(b, maxOrder)
    ensures |FreePages(b)| == PagesFrom(Counts(b, maxOrder), 0)
    decreases |b|
  {
    if |b| == 0 {
      assert forall o: nat :: HeadsOfOrder(b, o) == {};
      PagesFromZero(Counts(b, maxOrder), 0);
    } else {
      hide FreePages, Merged, PagesFrom, Run;
      var h := SomeHead(b);
      RemoveBlock(b, h, maxOrder);
      FreePagesCount(b - {h}, maxOrder);
      CountsRemove(b, h, maxOrder);
      PagesFromUpdate(Counts(b, maxOrder), 0, b[h], -1);
      RunCardinality(h, b[h]);
    }
  }

  /** If the orders from .. hold any page at all, one of them has a block. */
  lemma {:induction false} SomeBlock(b: BlockMap, maxOrder: nat, from: nat) returns (h: nat)
    requires from <= maxOrder && PagesFrom(Counts(b, maxOrder), from) > 0
    ensures h in b && from <= b[h] < maxOrder
    decreases maxOrder - from
  {
    var nr := Counts(b, maxOrder);
    if nr[from] > 0 {
      h :| h in HeadsOfOrder(b, from);
    } else {
      h := SomeBlock(b, maxOrder, from + 1);
    }
  }

  /** The blocks whose head lies in lo .. hi. */
  ghost function HeadsIn(b: BlockMap, lo: nat, hi: nat): BlockMap {
    map h | h in b && lo <= h < hi :: b[h]
  }

  /** Scanning past the block at hi adds exactly its pages; nothing heads inside it. */
  lemma HeadsInBlock(b: BlockMap, maxOrder: nat, lo: nat, hi: nat)
    requires Canonical(b, maxOrder) && hi in b && lo <= hi
    ensures var next := hi + Pow2(b[hi]);
      && (forall h :: h in b && hi < h ==> next <= h)
      && |FreePages(HeadsIn(b, lo, next))| == |FreePages(HeadsIn(b, lo, hi))| + Pow2(b[hi])
  {
    hide FreePages, Merged, Aligned, Pow2, Run, HeadsIn;
    var next := hi + Pow2(b[hi]);
    forall h | h in b && hi < h
      ensures next <= h
    {
      BlocksApart(b, maxOrder, hi, h);
    }
    HeadsInStep(b, lo, hi, next);
    var below := HeadsIn(b, lo, hi);
    FreePagesAdd(below, hi, b[hi]);
    forall k | k in below
      ensures Apart(hi, b[hi], k, below[k])
    {
      BlocksApart(b, maxOrder, hi, k);
    }
    UnfreeIffApart(below, hi, b[hi]);
    RunCardinality(hi, b[hi]);
  }

  lemma HeadsInStep(b: BlockMap, lo: nat, hi: nat, next: nat)
    requires hi in b && lo <= hi < next && forall h :: h in b && hi < h ==> next <= h
    ensures hi !in HeadsIn(b, lo, hi) && HeadsIn(b, lo, next) == HeadsIn(b, lo, hi)[hi := b[hi]]
    ensures forall h :: h in HeadsIn(b, lo, hi) ==> h in b && h < hi && HeadsIn(b, lo, hi)[h] == b[h]
  {
  }

  lemma HeadsInNone(b: BlockMap, lo: nat, hi: nat, next: nat)
    requires hi <= next && forall h :: h in b ==> !(hi <= h < next)
    ensures HeadsIn(b, lo, next) == HeadsIn(b, lo, hi)
  {
  }

  lemma HeadsInEmpty(b: BlockMap, lo: nat)
    ensures HeadsIn(b, lo, lo) == map[] && |FreePages(map[])| == 0
  {
  }
}
