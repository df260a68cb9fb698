/** __zone_watermark_ok: may an allocation of 2^order pages proceed above `mark`? */
module Watermark {
  import opened Bits
  import opened Blocks
  import opened BlockCounts
  import opened FreeLists
  import opened Zones

  /** Pages held by blocks of the orders below n. */
  function PagesBelow(nr: seq<int>, n: nat): int
    requires n <= |nr|
  {
    if n == 0 then 0 else PagesBelow(nr, n - 1) + nr[n - 1] * Pow2(n - 1)
  }

  lemma {:induction false} PagesSplit(nr: seq<int>, n: nat)
    requires n <= |nr|
    ensures PagesBelow(nr, n) + PagesFrom(nr, n) == PagesFrom(nr, 0)
  {
    if n > 0 { PagesSplit(nr, n - 1); }
  }

  /** mark, lowered for the two kinds of urgent callers: to a half, to three quarters, or to three eighths,
      rounded up. */
  function AdjustedMin(mark: nat, high: bool, harder: bool): (min: nat)
    ensures min <= mark && (!high && !harder ==> min == mark) && (mark > 0 ==> min > 0)
    ensures high && !harder ==> mark <= 2 * min <= mark + 1
    ensures !high && harder ==> 3 * mark <= 4 * min <= 3 * mark + 3
    ensures high && harder ==> 3 * mark <= 8 * min <= 3 * mark + 9
  {
    var m := if high then mark - mark / 2 else mark;
    if harder then m - m / 4 else m
  }

  /** A signed long read as unsigned long, in a machine whose word has `word` values. */
  function AsUnsigned(x: int, word: nat): int {
    if x < 0 then x + word else x
  }

  predicate FitsLong(x: int, word: nat) {
    0 - word / 2 <= x < word / 2
  }

  /** A difference of two longs brought back into the range of a long. */
  function AsLong(x: int, word: nat): int {
    if x < 0 - word / 2 then x + word else if x >= word / 2 then x - word else x
  }

  /** What the check computes, in closed form. */
  ghost predicate Passes(nr: seq<int>, order: nat, min: nat, lowmem: nat, freePages: int, word: nat)
    requires order <= |nr|
  {
    var f := freePages - Pow2(order) - 1;
    && AsUnsigned(f, word) > min + lowmem
    && forall k: nat :: 1 <= k <= order ==> f - PagesBelow(nr, k) > Shr(min, k)
  }

  lemma {:induction false} ShrHalf(x: nat, k: nat)
    ensures Shr(x, k) / 2 == Shr(x, k + 1)
    decreases k
  {
    if k > 0 { ShrHalf(x / 2, k - 1); }
  }

  /** __zone_watermark_ok. The first comparison is made on unsigned longs, since lowmem_reserve is
      unsigned; those in the loop are signed. The balances fit a signed long. */
  method ZoneWatermarkOk(nr: seq<int>, order: nat, mark: nat, lowmem: nat, high: bool, harder: bool,
                         freePages0: int, word: nat) returns (ok: bool)
    requires order <= |nr| && mark + lowmem < word
    requires forall k: nat :: k <= order ==> FitsLong(freePages0 - Pow2(order) - 1 - PagesBelow(nr, k), word)
    ensures ok <==> Passes(nr, order, AdjustedMin(mark, high, harder), lowmem, freePages0, word)
  {
    hide Pow2, Shr, AdjustedMin;
    assert PagesBelow(nr, 0) == 0 && FitsLong(freePages0 - Pow2(order) - 1 - PagesBelow(nr, 0), word);
    var freePages := AsLong(freePages0 - (Pow2(order) + 1), word);
    ghost var f, m := freePages, AdjustedMin(mark, high, harder);
    var min := AdjustedMin(mark, high, harder);
    if AsUnsigned(freePages, word) <= min + lowmem {
      return false;
    }
    ShrZero(min);
    for o := 0 to order
      invariant min == Shr(m, o) && freePages == f - PagesBelow(nr, o)
      invariant forall k: nat :: 1 <= k <= o ==> f - PagesBelow(nr, k) > Shr(m, k)
    {
      assert FitsLong(f - PagesBelow(nr, o + 1), word);
      freePages := AsLong(freePages - nr[o] * Pow2(o), word);
      ShrHalf(m, o);
      min := min / 2;
      if freePages <= min {
        return false;
      }
    }
    return true;
  }

  /** Callers that are not urgent get the mark they ask for. */
  lemma WholeMark(mark: nat)
    ensures AdjustedMin(mark, false, false) == mark && Pow2(0) == 1
  {
  }

  lemma ShrZero(x: nat)
    ensures Shr(x, 0) == x
  {
  }

  /** A pass leaves more than 2^order + 1 + (min >> order) pages in blocks of sufficient order,
      unless the order-0 balance was negative and read as a huge unsigned number. */
  lemma PassLeavesPages(nr: seq<int>, order: nat, min: nat, lowmem: nat, word: nat)
    requires order <= |nr| && Passes(nr, order, min, lowmem, PagesFrom(nr, 0), word)
    requires order >= 1 || PagesFrom(nr, 0) >= 2
    ensures PagesFrom(nr, order) > Pow2(order) + 1 + Shr(min, order)
  {
    hide Pow2, Shr;
    PagesSplit(nr, order);
    if order == 0 {
      ShrZero(min);
      assert Pow2(0) == 1 by { Pow2Zero(); }
    }
  }

  lemma Pow2Zero()
    ensures Pow2(0) == 1
  {
  }

  /** The balance of an order-0 request in a zone with at most one free page is negative, and
      passes whatever the watermark. */
  /** The check passes where there are pages enough in blocks of the order or more. */
  lemma PlentyPasses(nr: seq<int>, order: nat, min: nat, lowmem: nat, word: nat)
    requires order <= |nr| && forall k :: 0 <= k < |nr| ==> nr[k] >= 0
    requires PagesFrom(nr, order) > Pow2(order) + 1 + min + lowmem
    ensures Passes(nr, order, min, lowmem, PagesFrom(nr, 0), word)
  {
    PagesSplit(nr, order);
    PagesGrow(nr, 0, order);
    forall k: nat | 1 <= k <= order
      ensures PagesFrom(nr, 0) - Pow2(order) - 1 - PagesBelow(nr, k) > Shr(min, k)
    {
      PagesSplit(nr, k);
      PagesGrow(nr, k, order);
      ShrAtMost(min, k);
    }
  }

  lemma {:induction false} PagesGrow(nr: seq<int>, k: nat, order: nat)
    requires k <= order <= |nr| && forall i :: 0 <= i < |nr| ==> nr[i] >= 0
    ensures PagesFrom(nr, k) >= PagesFrom(nr, order)
    decreases order - k
  {
    if k < order {
      PagesGrow(nr, k + 1, order);
      assert nr[k] * Pow2(k) >= 0;
    }
  }

  lemma {:induction false} ShrAtMost(x: nat, n: nat)
    ensures Shr(x, n) <= x
    decreases n
  {
    if n > 0 {
      ShrAtMost(x / 2, n - 1);
    }
  }

  lemma NegativeBalancePasses(nr: seq<int>, min: nat, lowmem: nat, freePages: int, word: nat)
    requires 0 <= freePages <= 1
    ensures Passes(nr, 0, min, lowmem, freePages, word) <==> word - 2 + freePages > min + lowmem
  {
    Pow2Zero();
  }

  /** Exactly when does a pass promise an allocation that cannot be made? With exact counters and
      no isolated blocks: only for a single page from a zone that has no free page at all. */
  lemma PassMisleadsIff(fa: FreeAreas, b: BlockMap, typ: map<nat, nat>, maxOrder: nat,
                        order: nat, min: nat, lowmem: nat, word: nat)
    requires Canonical(b, maxOrder) && Counted(fa, b, maxOrder) && typ.Keys == b.Keys && order < maxOrder
    requires forall h :: h in typ ==> typ[h] != MIGRATE_ISOLATE
    ensures var free := |FreePages(b)|;
      Passes(NrFree(fa), order, min, lowmem, free, word) && !Available(b, typ, order) <==>
      order == 0 && free == 0 && word - 2 > min + lowmem
  {
    hide FreePages, Canonical, Passes, Available;
    var nr, free := NrFree(fa), |FreePages(b)|;
    NrFreeCountsPages(fa, b, maxOrder);
    assert nr == Counts(b, maxOrder);
    if order == 0 && 0 <= free <= 1 {
      NegativeBalancePasses(nr, min, lowmem, free, word);
    } else if Passes(nr, order, min, lowmem, free, word) {
      PassLeavesPages(nr, order, min, lowmem, word);
    }
    AvailableIffPages(b, typ, maxOrder, order);
  }

  /** How far the counter may be above the number of free pages for a pass to mean something. */
  function Margin(order: nat, min: nat, lowmem: nat): nat {
    Pow2(order) + 1 + Shr(min, order) + if order == 0 then lowmem else 0
  }

  /** zone_watermark_ok reads the zone counter, which may lag behind by some drift. A pass on the value
      seen still guarantees an allocation if the drift is within the margin, unless that value is one
      that makes the order-0 balance negative. */
  lemma PassWithDrift(fa: FreeAreas, b: BlockMap, typ: map<nat, nat>, maxOrder: nat,
                      order: nat, min: nat, lowmem: nat, word: nat, seen: nat, drift: nat)
    requires Canonical(b, maxOrder) && Counted(fa, b, maxOrder) && typ.Keys == b.Keys && order < maxOrder
    requires forall h :: h in typ ==> typ[h] != MIGRATE_ISOLATE
    requires seen <= |FreePages(b)| + drift && drift <= Margin(order, min, lowmem) && (order >= 1 || seen >= 2)
    requires Passes(NrFree(fa), order, min, lowmem, seen, word)
    ensures Available(b, typ, order)
  {
    hide FreePages, Canonical, Available, Pow2, Shr;
    var nr := NrFree(fa);
    NrFreeCountsPages(fa, b, maxOrder);
    assert nr == Counts(b, maxOrder);
    PagesSplit(nr, order);
    if order == 0 {
      WholeMark(min);
      ShrZero(min);
    }
    AvailableIffPages(b, typ, maxOrder, order);
  }

  /** For single pages the margin cannot be widened: one page more and an empty zone passes. */
  lemma MarginIsSharp(nr: seq<int>, min: nat, lowmem: nat, word: nat)
    ensures Passes(nr, 0, min, lowmem, Margin(0, min, lowmem) + 1, word) && !Available(map[], map[], 0)
    ensures |FreePages(map[])| == 0
  {
    WholeMark(min);
    ShrZero(min);
  }

  lemma AvailableIffPages(b: BlockMap, typ: map<nat, nat>, maxOrder: nat, order: nat)
    requires Canonical(b, maxOrder) && typ.Keys == b.Keys && order < maxOrder
    requires forall h :: h in typ ==> typ[h] != MIGRATE_ISOLATE
    ensures Available(b, typ, order) <==> PagesFrom(Counts(b, maxOrder), order) > 0
  {
    hide FreePages, Merged;
    if PagesFrom(Counts(b, maxOrder), order) > 0 {
      var h := SomeBlock(b, maxOrder, order);
    }
    if Available(b, typ, order) {
      var h :| h in b && h in typ && order <= b[h] && typ[h] != MIGRATE_ISOLATE;
      BlockCountsPages(b, maxOrder, order, h);
    }
  }

  lemma {:induction false} BlockCountsPages(b: BlockMap, maxOrder: nat, from: nat, h: nat)
    requires from <= maxOrder && h in b && from <= b[h] < maxOrder
    ensures PagesFrom(Counts(b, maxOrder), from) > 0
    decreases maxOrder - from
  {
    var nr := Counts(b, maxOrder);
    PagesNonNegative(b, maxOrder, from + 1);
    if b[h] == from {
      assert h in HeadsOfOrder(b, from);
      assert nr[from] >= 1;
      assert nr[from] * Pow2(from) >= 1;
    } else {
      BlockCountsPages(b, maxOrder, from + 1, h);
      assert nr[from] * Pow2(from) >= 0;
    }
  }

  lemma {:induction false} PagesNonNegative(b: BlockMap, maxOrder: nat, from: nat)
    requires from <= maxOrder
    ensures PagesFrom(Counts(b, maxOrder), from) >= 0
    decreases maxOrder - from
  {
    if from < maxOrder {
      PagesNonNegative(b, maxOrder, from + 1);
      assert Counts(b, maxOrder)[from] * Pow2(from) >= 0;
    }
  }
}
