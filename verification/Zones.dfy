/** The buddy allocator of one zone, updated in place (Linux/page_alloc.c). */
module Zones {
  import opened Bits
  import opened Blocks
  import opened BlockCounts
  import opened FreeLists
  import opened Migration
  import opened Options

  /** The parts of struct page the buddy system uses: PageBuddy and page_private. */
  datatype PageFrame = PageFrame(buddy: bool, priv: nat)

  /** Head of the run of order k that contains the run (h, o). */
  function RunHead(h: nat, o: nat, k: nat): nat {
    if k <= o then h else Lower(RunHead(h, o, k - 1), k - 1)
  }

  /** List (k, t) after freeing the run (page, order) with type mt absorbed one buddy of each
      order below top: those buddies leave their lists, the merged block joins list (top, mt). */
  ghost function ListAfterFree(l: seq<nat>, k: nat, t: nat, page: nat, order: nat, top: nat, mt: nat, tail: bool)
    : seq<nat>
  {
    if order <= k < top then Without(l, Buddy(RunHead(page, order, k), k))
    else if k != top || t != mt then l
    else if tail then l + [RunHead(page, order, top)]
    else [RunHead(page, order, top)] + l
  }

  ghost predicate ListsAfterFree(before: FreeAreas, after: FreeAreas, maxOrder: nat,
                                 page: nat, order: nat, top: nat, mt: nat, tail: bool)
  {
    && Shaped(before, maxOrder) && Shaped(after, maxOrder)
    && forall k: nat, t: nat :: k < maxOrder && t < MIGRATE_TYPES ==>
         after[k].lists[t] == ListAfterFree(before[k].lists[t], k, t, page, order, top, mt, tail)
  }

  lemma SameLower(h: nat, o: nat)
    requires Aligned(h, o) && h == Lower(h, o)
    ensures Buddy(h, o) == Upper(h, o) && Lower(Buddy(h, o), o) == h && Buddy(h, o + 1) != h
  {
    Halves(h, o);
    PairOfRun(h, o);
    BuddyBuddy(h, o + 1);
  }

  /** A head that coalescing creates has at least the order it started from. */
  lemma {:induction false} CoalesceGrows(b: BlockMap, h: nat, o: nat, maxOrder: nat, k: nat)
    requires k in Coalesce(b, h, o, maxOrder)
    ensures IsBlock(b, k, Coalesce(b, h, o, maxOrder)[k]) || Coalesce(b, h, o, maxOrder)[k] >= o
    decreases maxOrder - o
  {
    if o + 1 < maxOrder && IsBlock(b, Buddy(h, o), o) {
      CoalesceGrows(b - {Buddy(h, o)}, Lower(h, o), o + 1, maxOrder, k);
    }
  }

  /** What __free_one_page has merged so far: blocks b, reached from b0. */
  ghost predicate Merging(b0: BlockMap, page0: nat, order0: nat, order: nat, b: BlockMap, maxOrder: nat) {
    var page := RunHead(page0, order0, order);
    && order0 <= order < maxOrder && Aligned(page, order)
    && Run(page, order) !! FreePages(b)
    && Coalesce(b, page, order, maxOrder) == Coalesce(b0, page0, order0, maxOrder)
    && FreePages(b) + Run(page, order) == FreePages(b0) + Run(page0, order0)
    && (forall h, k: nat :: k > order ==> IsBlock(b, h, k) == IsBlock(b0, h, k))
  }

  lemma MergingStart(b: BlockMap, fa: FreeAreas, page: nat, order: nat, maxOrder: nat)
    requires Aligned(page, order) && order < maxOrder && Run(page, order) !! FreePages(b) && Shaped(fa, maxOrder)
    ensures RunHead(page, order, order) == page && Merging(b, page, order, order, b, maxOrder)
    ensures ListsAfterFree(fa, fa, maxOrder, page, order, order, MIGRATE_TYPES, false)
  {
    hide FreePages, Aligned, Coalesce, Run;
  }

  lemma MergingStep(b0: BlockMap, page0: nat, order0: nat, order: nat, b: BlockMap, maxOrder: nat)
    requires Canonical(b, maxOrder)
    requires Merging(b0, page0, order0, order, b, maxOrder) && order + 1 < maxOrder
    requires IsBlock(b, Buddy(RunHead(page0, order0, order), order), order)
    ensures Merging(b0, page0, order0, order + 1, b - {Buddy(RunHead(page0, order0, order), order)}, maxOrder)
    ensures RunHead(page0, order0, order + 1) == Lower(RunHead(page0, order0, order), order)
  {
    hide FreePages, Canonical, Aligned, Lower, Buddy, Run;
    var page := RunHead(page0, order0, order);
    BuddyBuddy(page, order);
    RemoveBlock(b, Buddy(page, order), maxOrder);
    MergingSets(FreePages(b), Run(page, order), Run(Buddy(page, order), order), FreePages(b0) + Run(page0, order0));
  }

  lemma MergingSets(free: set<nat>, run: set<nat>, buddy: set<nat>, all: set<nat>)
    requires free + run == all && run !! free && run !! buddy && buddy <= free
    ensures (free - buddy) + (run + buddy) == all && (run + buddy) !! (free - buddy)
  {
  }

  lemma ListsStep(fa0: FreeAreas, fa: FreeAreas, maxOrder: nat, page0: nat, order0: nat, order: nat)
    requires ListsAfterFree(fa0, fa, maxOrder, page0, order0, order, MIGRATE_TYPES, false)
    requires order0 <= order && order + 1 < maxOrder
    ensures ListsAfterFree(fa0, AddNr(Delete(fa, order, Buddy(RunHead(page0, order0, order), order)), order, -1),
                           maxOrder, page0, order0, order + 1, MIGRATE_TYPES, false)
  {
    hide Buddy, RunHead, Without;
  }

  lemma ListsEnd(fa0: FreeAreas, fa: FreeAreas, maxOrder: nat, page0: nat, order0: nat, top: nat, mt: nat, tail: bool)
    requires ListsAfterFree(fa0, fa, maxOrder, page0, order0, top, MIGRATE_TYPES, false)
    requires order0 <= top < maxOrder && mt < MIGRATE_TYPES
    ensures ListsAfterFree(fa0, AddNr(Push(fa, top, mt, RunHead(page0, order0, top), tail), top, 1),
                           maxOrder, page0, order0, top, mt, tail)
  {
    hide Buddy, RunHead, Without;
  }

  lemma PushedEnd(fa0: FreeAreas, fa: FreeAreas, maxOrder: nat, page0: nat, order0: nat, top: nat, mt: nat, tail: bool)
    requires Shaped(fa, maxOrder) && order0 <= top < maxOrder && mt < MIGRATE_TYPES
    ensures var l := AddNr(Push(fa, top, mt, RunHead(page0, order0, top), tail), top, 1)[top].lists[mt];
      l != [] && RunHead(page0, order0, top) == if tail then l[|l| - 1] else l[0]
  {
  }

  /** The free lists after splitting the run (page, high) down to order low: each order between
      gained the upper half of that order at the head of its list. */
  ghost predicate ListsAfterSplit(before: FreeAreas, after: FreeAreas, maxOrder: nat,
                                  page: nat, low: nat, high: nat, mt: nat)
  {
    && Shaped(before, maxOrder) && Shaped(after, maxOrder)
    && forall k: nat, t: nat :: k < maxOrder && t < MIGRATE_TYPES ==>
         after[k].lists[t] ==
           if low <= k < high && t == mt then [page + Pow2(k)] + before[k].lists[t] else before[k].lists[t]
  }

  lemma SplitHeads(before: FreeAreas, after: FreeAreas, maxOrder: nat, page: nat, low: nat, high: nat, mt: nat)
    requires ListsAfterSplit(before, after, maxOrder, page, low, high, mt) && high < maxOrder && mt < MIGRATE_TYPES
    ensures forall k :: low <= k < high ==> after[k].lists[mt] != [] && after[k].lists[mt][0] == page + Pow2(k)
  {
    hide Pow2;
  }

  lemma SplitListsStart(fa: FreeAreas, maxOrder: nat, page: nat, high: nat, mt: nat)
    requires Shaped(fa, maxOrder)
    ensures ListsAfterSplit(fa, fa, maxOrder, page, high, high, mt)
  {
  }

  lemma SplitListsStep(before: FreeAreas, fa: FreeAreas, maxOrder: nat, page: nat, low: nat, high: nat, mt: nat)
    requires ListsAfterSplit(before, fa, maxOrder, page, low + 1, high, mt) && low < high < maxOrder && mt < MIGRATE_TYPES
    ensures ListsAfterSplit(before, AddNr(Push(fa, low, mt, page + Pow2(low), false), low, 1), maxOrder, page, low, high, mt)
  {
    hide Pow2;
  }

  /** Every list of a fallback type is empty at order k; the reserve is not a fallback. */
  predicate NoFallback(fa: FreeAreas, k: nat, mt: nat)
    requires k < |fa| && |fa[k].lists| == MIGRATE_TYPES && mt < MIGRATE_PCPTYPES
  {
    forall i :: 0 <= i < MIGRATE_TYPES - 1 && Fallback(mt, i) != MIGRATE_RESERVE ==> fa[k].lists[Fallback(mt, i)] == []
  }

  ghost predicate NoFallbacks(fa: FreeAreas, maxOrder: nat, order: nat, mt: nat)
    requires Shaped(fa, maxOrder) && mt < MIGRATE_PCPTYPES
  {
    forall k: nat :: order <= k < maxOrder ==> NoFallback(fa, k, mt)
  }

  ghost predicate NoneOfType(fa: FreeAreas, maxOrder: nat, order: nat, mt: nat)
    requires Shaped(fa, maxOrder) && mt < MIGRATE_TYPES
  {
    forall k: nat :: order <= k < maxOrder ==> fa[k].lists[mt] == []
  }

  /** p is the first block of type mt at the smallest order, from `order` up, that has one. */
  ghost predicate SmallestChoice(fa: FreeAreas, b: BlockMap, maxOrder: nat, p: nat, order: nat, mt: nat)
    requires Shaped(fa, maxOrder) && mt < MIGRATE_TYPES
  {
    && p in b && order <= b[p] < maxOrder
    && fa[b[p]].lists[mt] != [] && fa[b[p]].lists[mt][0] == p
    && (forall k: nat :: order <= k < b[p] ==> fa[k].lists[mt] == [])
  }

  /** p is the first block on the first fallback list of mt that has one, at the largest order
      at which any fallback list has one. */
  ghost predicate FallbackChoice(fa: FreeAreas, b: BlockMap, typ: map<nat, nat>, maxOrder: nat, p: nat, order: nat, mt: nat)
    requires Shaped(fa, maxOrder) && mt < MIGRATE_PCPTYPES
  {
    && p in b && p in typ && order <= b[p] < maxOrder
    && (exists i :: 0 <= i < MIGRATE_TYPES - 1 && Fallback(mt, i) == typ[p] && typ[p] != MIGRATE_RESERVE
         && (forall j :: 0 <= j < i && Fallback(mt, j) != MIGRATE_RESERVE ==> fa[b[p]].lists[Fallback(mt, j)] == [])
         && fa[b[p]].lists[Fallback(mt, i)] != [] && fa[b[p]].lists[Fallback(mt, i)][0] == p)
    && (forall k: nat :: b[p] < k < maxOrder ==> NoFallback(fa, k, mt))
  }

  /** Unmovable and reclaimable pages fall back to each other before they take a movable block, and movable
      pages fall back to reclaimable ones first. */
  predicate Preferred(area: FreeArea, t: nat, mt: nat)
    requires |area.lists| == MIGRATE_TYPES
  {
    && (mt == MIGRATE_UNMOVABLE && t == MIGRATE_MOVABLE ==> area.lists[MIGRATE_RECLAIMABLE] == [])
    && (mt == MIGRATE_RECLAIMABLE && t == MIGRATE_MOVABLE ==> area.lists[MIGRATE_UNMOVABLE] == [])
    && (mt == MIGRATE_MOVABLE && t == MIGRATE_UNMOVABLE ==> area.lists[MIGRATE_RECLAIMABLE] == [])
  }

  lemma FallbackPrefers(fa: FreeAreas, b: BlockMap, typ: map<nat, nat>, maxOrder: nat, p: nat, order: nat, mt: nat)
    requires Shaped(fa, maxOrder) && mt < MIGRATE_PCPTYPES && FallbackChoice(fa, b, typ, maxOrder, p, order, mt)
    ensures Preferred(fa[b[p]], typ[p], mt)
  {
    assert Fallback(MIGRATE_UNMOVABLE, 0) == MIGRATE_RECLAIMABLE && Fallback(MIGRATE_RECLAIMABLE, 0) == MIGRATE_UNMOVABLE;
    assert Fallback(MIGRATE_MOVABLE, 0) == MIGRATE_RECLAIMABLE;
  }

  /** Which block __rmqueue takes for type mt: the first of the smallest sufficient order of
      type mt; without one, the fallback choice; without that, the first of the smallest
      sufficient order of the reserve. */
  ghost predicate Choice(fa: FreeAreas, b: BlockMap, typ: map<nat, nat>, maxOrder: nat, p: nat, order: nat, mt: nat)
    requires Shaped(fa, maxOrder) && mt < MIGRATE_PCPTYPES
  {
    || SmallestChoice(fa, b, maxOrder, p, order, mt)
    || (NoneOfType(fa, maxOrder, order, mt) && FallbackChoice(fa, b, typ, maxOrder, p, order, mt))
    || (&& NoneOfType(fa, maxOrder, order, mt) && NoFallbacks(fa, maxOrder, order, mt)
        && SmallestChoice(fa, b, maxOrder, p, order, MIGRATE_RESERVE))
  }

  /** A block of type t of at least the given order. */
  ghost predicate HasType(b: BlockMap, typ: map<nat, nat>, order: nat, t: nat) {
    exists h :: h in b && h in typ && order <= b[h] && typ[h] == t
  }

  /** What the choice means, said of the blocks alone: a smallest sufficient block of the type asked for; if there
      is none, a largest block of the other two types that are not the reserve; if there is none of these
      either, a smallest sufficient block of the reserve. */
  ghost predicate BestChoice(b: BlockMap, typ: map<nat, nat>, p: nat, order: nat, mt: nat) {
    && p in b && p in typ && order <= b[p] && typ[p] <= MIGRATE_RESERVE
    && if HasType(b, typ, order, mt) then
         typ[p] == mt && forall h :: h in b && h in typ && order <= b[h] && typ[h] == mt ==> b[p] <= b[h]
       else if exists t: nat :: t < MIGRATE_PCPTYPES && HasType(b, typ, order, t) then
         typ[p] < MIGRATE_RESERVE && forall h :: h in b && h in typ && order <= b[h] && typ[h] < MIGRATE_RESERVE ==> b[h] <= b[p]
       else
         typ[p] == MIGRATE_RESERVE && forall h :: h in b && h in typ && order <= b[h] && typ[h] == MIGRATE_RESERVE ==> b[p] <= b[h]
  }

  lemma TypeOnLists(fa: FreeAreas, b: BlockMap, typ: map<nat, nat>, maxOrder: nat, order: nat, t: nat)
    requires Shaped(fa, maxOrder) && Linked(fa, b, typ, maxOrder) && t < MIGRATE_TYPES && forall h :: h in b ==> b[h] < maxOrder
    ensures HasType(b, typ, order, t) <==> !NoneOfType(fa, maxOrder, order, t)
  {
    if HasType(b, typ, order, t) {
      var h :| h in b && h in typ && order <= b[h] && typ[h] == t;
      assert h in fa[b[h]].lists[t];
    } else {
      forall k: nat | order <= k < maxOrder
        ensures fa[k].lists[t] == []
      {
        if fa[k].lists[t] != [] {
          FirstOnList(fa, b, typ, maxOrder, k, t);
        }
      }
    }
  }

  lemma SmallestMeans(fa: FreeAreas, b: BlockMap, typ: map<nat, nat>, maxOrder: nat, p: nat, order: nat, t: nat)
    requires Shaped(fa, maxOrder) && Linked(fa, b, typ, maxOrder) && t < MIGRATE_TYPES && forall h :: h in b ==> b[h] < maxOrder
    requires SmallestChoice(fa, b, maxOrder, p, order, t)
    ensures p in typ && typ[p] == t && HasType(b, typ, order, t)
    ensures forall h :: h in b && h in typ && order <= b[h] && typ[h] == t ==> b[p] <= b[h]
  {
    FirstOnList(fa, b, typ, maxOrder, b[p], t);
    forall h | h in b && h in typ && order <= b[h] && typ[h] == t
      ensures b[p] <= b[h]
    {
      assert h in fa[b[h]].lists[t];
    }
  }

  lemma LargestMeans(fa: FreeAreas, b: BlockMap, typ: map<nat, nat>, maxOrder: nat, p: nat, order: nat, mt: nat)
    requires Shaped(fa, maxOrder) && Linked(fa, b, typ, maxOrder) && mt < MIGRATE_PCPTYPES && forall h :: h in b ==> b[h] < maxOrder
    requires FallbackChoice(fa, b, typ, maxOrder, p, order, mt) && NoneOfType(fa, maxOrder, order, mt)
    ensures p in typ && typ[p] < MIGRATE_RESERVE && HasType(b, typ, order, typ[p])
    ensures forall h :: h in b && h in typ && order <= b[h] && typ[h] < MIGRATE_RESERVE ==> b[h] <= b[p]
  {
    assert typ[p] != MIGRATE_ISOLATE;
    forall h | h in b && h in typ && order <= b[h] && typ[h] < MIGRATE_RESERVE
      ensures b[h] <= b[p]
    {
      assert h in fa[b[h]].lists[typ[h]];
      if typ[h] != mt {
        var i := FallbackReaches(mt, typ[h]);
        assert fa[b[h]].lists[Fallback(mt, i)] != [];
        assert b[h] > b[p] ==> NoFallback(fa, b[h], mt);
      }
    }
  }

  lemma NoFallbackTypes(fa: FreeAreas, b: BlockMap, typ: map<nat, nat>, maxOrder: nat, order: nat, mt: nat)
    requires Shaped(fa, maxOrder) && Linked(fa, b, typ, maxOrder) && mt < MIGRATE_PCPTYPES && forall h :: h in b ==> b[h] < maxOrder
    requires NoneOfType(fa, maxOrder, order, mt) && NoFallbacks(fa, maxOrder, order, mt)
    ensures forall t: nat :: t < MIGRATE_PCPTYPES ==> !HasType(b, typ, order, t)
  {
    forall t: nat | t < MIGRATE_PCPTYPES
      ensures !HasType(b, typ, order, t)
    {
      if t != mt {
        var i := FallbackReaches(mt, t);
        forall k: nat | order <= k < maxOrder
          ensures fa[k].lists[t] == []
        {
          assert NoFallback(fa, k, mt);
        }
      }
      TypeOnLists(fa, b, typ, maxOrder, order, t);
    }
  }

  lemma ChoiceMeans(fa: FreeAreas, b: BlockMap, typ: map<nat, nat>, maxOrder: nat, p: nat, order: nat, mt: nat)
    requires Shaped(fa, maxOrder) && Linked(fa, b, typ, maxOrder) && mt < MIGRATE_PCPTYPES && forall h :: h in b ==> b[h] < maxOrder
    requires Choice(fa, b, typ, maxOrder, p, order, mt)
    ensures BestChoice(b, typ, p, order, mt)
  {
    hide Linked, NoneOfType, NoFallbacks, HasType, SmallestChoice, FallbackChoice;
    TypeOnLists(fa, b, typ, maxOrder, order, mt);
    ChosenKnown(fa, b, maxOrder, p, order, mt);
    if SmallestChoice(fa, b, maxOrder, p, order, mt) {
      SmallestMeans(fa, b, typ, maxOrder, p, order, mt);
    } else if FallbackChoice(fa, b, typ, maxOrder, p, order, mt) && NoneOfType(fa, maxOrder, order, mt) {
      LargestMeans(fa, b, typ, maxOrder, p, order, mt);
      assert b[p] >= order by { FallbackKnown(fa, b, typ, maxOrder, p, order, mt); }
    } else {
      SmallestMeans(fa, b, typ, maxOrder, p, order, MIGRATE_RESERVE);
      ChosenKnown(fa, b, maxOrder, p, order, MIGRATE_RESERVE);
      NoFallbackTypes(fa, b, typ, maxOrder, order, mt);
    }
  }

  lemma ChosenKnown(fa: FreeAreas, b: BlockMap, maxOrder: nat, p: nat, order: nat, t: nat)
    requires Shaped(fa, maxOrder) && t < MIGRATE_TYPES
    ensures SmallestChoice(fa, b, maxOrder, p, order, t) ==> p in b && order <= b[p]
  {
  }

  lemma FallbackKnown(fa: FreeAreas, b: BlockMap, typ: map<nat, nat>, maxOrder: nat, p: nat, order: nat, mt: nat)
    requires Shaped(fa, maxOrder) && mt < MIGRATE_PCPTYPES && FallbackChoice(fa, b, typ, maxOrder, p, order, mt)
    ensures p in b && order <= b[p]
  {
  }

  /** There is a block of at least the given order on a list other than the ISOLATE lists. */
  ghost predicate Available(b: BlockMap, typ: map<nat, nat>, order: nat) {
    exists h :: h in b && h in typ && order <= b[h] && typ[h] != MIGRATE_ISOLATE
  }

  lemma FirstOnList(fa: FreeAreas, b: BlockMap, typ: map<nat, nat>, maxOrder: nat, k: nat, t: nat)
    requires Linked(fa, b, typ, maxOrder) && k < maxOrder && t < MIGRATE_TYPES && fa[k].lists[t] != []
    ensures var h := fa[k].lists[t][0]; IsBlock(b, h, k) && h in typ && typ[h] == t
  {
    assert fa[k].lists[t][0] in fa[k].lists[t];
  }

  /** The lists __rmqueue searches for type mt are all the lists but the ISOLATE lists. */
  lemma AvailableIffLists(fa: FreeAreas, b: BlockMap, typ: map<nat, nat>, maxOrder: nat, order: nat, mt: nat)
    requires Shaped(fa, maxOrder) && Linked(fa, b, typ, maxOrder) && mt < MIGRATE_PCPTYPES
    requires forall h :: h in b ==> b[h] < maxOrder
    ensures !Available(b, typ, order) <==>
      && NoneOfType(fa, maxOrder, order, mt) && NoFallbacks(fa, maxOrder, order, mt)
      && NoneOfType(fa, maxOrder, order, MIGRATE_RESERVE)
  {
    if Available(b, typ, order) {
      var h :| h in b && h in typ && order <= b[h] && typ[h] != MIGRATE_ISOLATE;
      assert h in fa[b[h]].lists[typ[h]];
      if typ[h] != mt && typ[h] != MIGRATE_RESERVE {
        var i := FallbackReaches(mt, typ[h]);
        assert !NoFallback(fa, b[h], mt);
      }
    } else {
      forall k: nat, t: nat | order <= k < maxOrder && t < MIGRATE_ISOLATE
        ensures fa[k].lists[t] == []
      {
        if fa[k].lists[t] != [] { FirstOnList(fa, b, typ, maxOrder, k, t); }
      }
    }
  }

  /** Between them, a type and its fallbacks name every type below the reserve. */
  lemma FallbackReaches(mt: nat, t: nat) returns (i: nat)
    requires mt < MIGRATE_PCPTYPES && t < MIGRATE_PCPTYPES && t != mt
    ensures i < MIGRATE_TYPES - 1 && Fallback(mt, i) == t
  {
    i := if Fallback(mt, 0) == t then 0 else 1;
  }

  /** The free lists, the free blocks and their types, and the types of the pageblocks, at one moment. */
  datatype Shot = Shot(freeArea: FreeAreas, blocks: BlockMap, typ: map<nat, nat>, blockType: seq<nat>)

  class Zone {
    const maxOrder: nat               // MAX_ORDER
    const pageblockOrder: nat         // pageblock_order
    const groupingDisabled: bool      // page_group_by_mobility_disabled
    const id: nat                     // page_zone_id of this zone's pages
    const start: nat                  // zone_start_pfn
    const end: nat                    // zone_start_pfn + spanned_pages
    const pfnValid: seq<bool>         // pfn_valid_within
    const zoneId: seq<nat>            // page_zone_id of every page
    const memMap: array<PageFrame>    // mem_map, pages of other zones included
    const blockType: array<nat>       // get_pageblock_migratetype, by pageblock
    var freeArea: FreeAreas           // zone->free_area
    ghost var blocks: BlockMap        // the free blocks that memMap's flags record
    ghost var typ: map<nat, nat>      // the migrate type of the list that links each block

    /** A zone before any page is freed into it: empty free lists, every pageblock movable. */
    constructor (maxOrder: nat, pageblockOrder: nat, groupingDisabled: bool, id: nat, start: nat, end: nat,
                 pfnValid: seq<bool>, zoneId: seq<nat>)
      requires 2 <= maxOrder && 1 <= pageblockOrder < maxOrder
      requires |pfnValid| == |zoneId| && start <= end <= |pfnValid|
      requires forall p :: 0 <= p < |pfnValid| && pfnValid[p] ==> (zoneId[p] == id <==> start <= p < end)
      ensures Valid() && Balanced() && blocks == map[] && fresh(memMap) && fresh(blockType)
    {
      this.maxOrder, this.pageblockOrder, this.groupingDisabled := maxOrder, pageblockOrder, groupingDisabled;
      this.id, this.start, this.end, this.pfnValid, this.zoneId := id, start, end, pfnValid, zoneId;
      memMap := new PageFrame[|pfnValid|](_ => PageFrame(false, 0));
      blockType := new nat[|pfnValid| + 1](_ => MIGRATE_MOVABLE);
      freeArea := seq(maxOrder, _ => FreeArea(seq(MIGRATE_TYPES, _ => []), 0));
      blocks, typ := map[], map[];
      new;
      forall p: nat | p < memMap.Length
        ensures Shr(p, this.pageblockOrder) < blockType.Length
      {
        ShrBelow(p, this.pageblockOrder);
      }
      assert forall o: nat :: HeadsOfOrder(blocks, o) == {};
    }

    ghost predicate Geometry() {
      && 2 <= maxOrder && 1 <= pageblockOrder < maxOrder
      && |pfnValid| == |zoneId| == memMap.Length && start <= end <= memMap.Length
      && (forall p :: 0 <= p < memMap.Length && pfnValid[p] ==> (zoneId[p] == id <==> start <= p < end))
      && (forall p: nat :: p < memMap.Length ==> Shr(p, pageblockOrder) < blockType.Length)
    }

    predicate InZone(p: nat)
      requires Geometry()
    {
      start <= p < end && pfnValid[p]
    }

    ghost function ZonePages(): set<nat>
      requires Geometry()
    {
      set p | start <= p < end && InZone(p)
    }

    /** Flags and orders in mem_map say what `blocks` says; pages of other zones that carry the
        buddy flag are aligned to their order, as in every zone. */
    ghost predicate FlagsMatch()
      requires Geometry()
      reads this, memMap
    {
      forall p {:trigger memMap[p]} :: 0 <= p < memMap.Length && pfnValid[p] ==>
        if start <= p < end
        then (memMap[p].buddy <==> p in blocks) && (p in blocks ==> memMap[p].priv == blocks[p])
        else memMap[p].buddy ==> Aligned(p, memMap[p].priv)
    }

    ghost predicate Valid()
      reads this, memMap, blockType
    {
      && Geometry()
      && Canonical(blocks, maxOrder)
      && FreePages(blocks) <= ZonePages()
      && FlagsMatch()
      && Shaped(freeArea, maxOrder) && typ.Keys == blocks.Keys && Linked(freeArea, blocks, typ, maxOrder)
      && (forall i :: 0 <= i < blockType.Length ==> blockType[i] < MIGRATE_TYPES)
    }

    ghost function Now(): Shot
      reads this, blockType
    {
      Shot(freeArea, blocks, typ, blockType[..])
    }

    /** nr_free is right for every order. */
    ghost predicate Balanced()
      reads this
    {
      Counted(freeArea, blocks, maxOrder)
    }

    /** page_is_buddy. */
    predicate PageIsBuddy(page: nat, buddy: nat, order: nat)
      requires Geometry() && page < memMap.Length
      reads memMap
    {
      && buddy < memMap.Length && pfnValid[buddy]
      && zoneId[page] == zoneId[buddy]
      && memMap[buddy].buddy && memMap[buddy].priv == order
    }

    lemma BlockInZone(h: nat)
      requires Valid() && h in blocks
      ensures InZone(h) && Aligned(h, blocks[h]) && blocks[h] < maxOrder && Run(h, blocks[h]) <= ZonePages()
      ensures memMap[h] == PageFrame(true, blocks[h])
    {
      hide FreePages, Merged, Linked;
      BlockInFreePages(blocks, h);
    }

    lemma FreeInZone()
      requires Valid()
      ensures FreePages(blocks) <= ZonePages()
    {
      hide FreePages, Canonical, Linked, ZonePages;
    }

    lemma PageIsBuddyIffBlock(page: nat, buddy: nat, order: nat)
      requires Valid() && InZone(page)
      ensures PageIsBuddy(page, buddy, order) <==> IsBlock(blocks, buddy, order)
    {
      hide FreePages, Canonical, Linked;
      if buddy in blocks { BlockInZone(buddy); }
    }

    /** list_del of a free block's head, clearing its buddy flag and order. */
    method UnlinkBlock(h: nat)
      requires Valid() && h in blocks
      modifies `freeArea, `blocks, `typ, memMap
      ensures Valid()
      ensures blocks == old(blocks) - {h} && typ == old(typ) - {h}
      ensures old(blocks)[h] < maxOrder && freeArea == Delete(old(freeArea), old(blocks)[h], h)
      ensures h < memMap.Length && memMap[..] == old(memMap[..])[h := PageFrame(false, 0)]
    {
      hide FreePages, Canonical, Linked, Delete;
      BlockInZone(h);
      DeleteLinked(freeArea, blocks, typ, maxOrder, h);
      RemoveBlock(blocks, h, maxOrder);
      freeArea := Delete(freeArea, memMap[h].priv, h);
      memMap[h] := PageFrame(false, 0);
      blocks := blocks - {h};
      typ := typ - {h};
    }

    /** set_page_order and list_add or list_add_tail of a new free block, counting it. */
    method LinkBlock(h: nat, o: nat, t: nat, tail: bool)
      requires Valid() && Balanced()
      requires o < maxOrder && t < MIGRATE_TYPES && Aligned(h, o)
      requires Run(h, o) <= ZonePages() && Run(h, o) !! FreePages(blocks)
      requires o + 1 < maxOrder ==> !IsBlock(blocks, Buddy(h, o), o)
      modifies `freeArea, `blocks, `typ, memMap
      ensures Valid() && Balanced()
      ensures h !in old(blocks) && blocks == old(blocks)[h := o] && typ == old(typ)[h := t]
      ensures freeArea == AddNr(Push(old(freeArea), o, t, h, tail), o, 1)
      ensures h < memMap.Length && memMap[..] == old(memMap[..])[h := PageFrame(true, o)]
      ensures FreePages(blocks) == old(FreePages(blocks)) + Run(h, o)
    {
      hide FreePages, Canonical, Linked, Counted, AddNr, Push;
      AddBlock(blocks, h, o, maxOrder);
      PushCounted(freeArea, blocks, typ, maxOrder, o, t, h, tail);
      assert h in Run(h, o) by { assert InRun(h, h, o); }
      freeArea := AddNr(Push(freeArea, o, t, h, tail), o, 1);
      memMap[h] := PageFrame(true, o);
      blocks := blocks[h := o];
      typ := typ[h := t];
    }

    /** list_del, nr_free-- and rmv_page_order of a free block. */
    method TakeBlock(h: nat)
      requires Valid() && Balanced() && h in blocks
      modifies `freeArea, `blocks, `typ, memMap
      ensures Valid() && Balanced()
      ensures blocks == old(blocks) - {h} && typ == old(typ) - {h}
      ensures old(blocks)[h] < maxOrder
      ensures freeArea == AddNr(Delete(old(freeArea), old(blocks)[h], h), old(blocks)[h], -1)
      ensures h < memMap.Length && memMap[..] == old(memMap[..])[h := PageFrame(false, 0)]
      ensures FreePages(blocks) == old(FreePages(blocks)) - Run(h, old(blocks)[h])
      ensures forall q :: 0 <= q < memMap.Length && q !in old(FreePages(blocks)) ==> memMap[q] == old(memMap[q])
    {
      hide FreePages, Canonical, Linked, Counted, AddNr, Delete;
      BlockInFreePages(blocks, h);
      BlockInZone(h);
      var order := memMap[h].priv;
      DeleteCounted(freeArea, blocks, typ, maxOrder, h);
      RemoveBlock(blocks, h, maxOrder);
      UnlinkBlock(h);
      freeArea := AddNr(freeArea, order, -1);
    }

    /** Withdraw a whole free block, as split_free_page does. */
    method WithdrawBlock(h: nat) returns (order: nat)
      requires Valid() && Balanced() && h in blocks
      modifies `freeArea, `blocks, `typ, memMap
      ensures Valid() && Balanced() && order == old(blocks)[h] && blocks == old(blocks) - {h}
      ensures Run(h, order) <= old(FreePages(blocks)) && FreePages(blocks) == old(FreePages(blocks)) - Run(h, order)
      ensures forall q :: 0 <= q < memMap.Length ==> memMap[q] == if q == h then PageFrame(false, 0) else old(memMap[q])
    {
      hide FreePages, Canonical, Linked, Counted, AddNr, Delete, Run, ZonePages;
      BlockInZone(h);
      BlockInFreePages(blocks, h);
      order := memMap[h].priv;
      TakeBlock(h);
    }

    /** The merged block at (h, o) goes to the tail of its list: it is the lower half of its
        pair, the upper half exists, and the pair's own buddy is one free block. */
    ghost predicate LikelyToMerge(b: BlockMap, h: nat, o: nat)
      requires Geometry()
    {
      && o + 2 < maxOrder && h == Lower(h, o)
      && Upper(h, o) < memMap.Length && pfnValid[Upper(h, o)]
      && IsBlock(b, Buddy(h, o + 1), o + 1)
    }

    /** A block goes to the tail if the pair that it forms with its buddy, once that is freed too, would be
        merged further, so that the block is better left alone. */
    lemma TailMeansMerge(b: BlockMap, h: nat, o: nat)
      requires Geometry() && Canonical(b, maxOrder) && IsBlock(b, h, o) && o + 2 < maxOrder
      requires h == Lower(h, o) && Upper(h, o) < memMap.Length && pfnValid[Upper(h, o)]
      ensures LikelyToMerge(b, h, o) <==> !IsBlock(Coalesce(b, Buddy(h, o), o, maxOrder), h, o + 1)
    {
      hide Lower, Upper, Aligned, Merged, FreePages;
      var u := Buddy(h, o);
      BuddyBuddy(h, o);
      SameLower(h, o);
      assert Coalesce(b, u, o, maxOrder) == Coalesce(b - {h}, h, o + 1, maxOrder);
      if IsBlock(b, Buddy(h, o + 1), o + 1) {
        var b' := b - {h} - {Buddy(h, o + 1)};
        assert Coalesce(b - {h}, h, o + 1, maxOrder) == Coalesce(b', Lower(h, o + 1), o + 2, maxOrder);
        if h in Coalesce(b', Lower(h, o + 1), o + 2, maxOrder) {
          CoalesceGrows(b', Lower(h, o + 1), o + 2, maxOrder, h);
        }
      }
    }

    lemma HigherBuddyIndex(page: nat, order: nat, idx: nat, combined: nat)
      requires order + 2 < maxOrder && Aligned(page, order) && idx == And(page, Pow2(maxOrder) - 1)
      requires combined == And(Xor(idx, Pow2(order)), idx)
      ensures var l := Lower(page, order);
        && page + combined - idx == l
        && l + Xor(combined, Pow2(order + 1)) - combined == Buddy(l, order + 1)
    {
      hide Aligned, Lower, Buddy, Xor, And, Pow2;
      BuddyIndex(page, order, maxOrder);
      BuddyBuddy(page, order);
      BuddyIndex(Lower(page, order), order + 1, maxOrder);
    }

    lemma ShiftedBuddyUnaligned(page: nat, order: nat)
      requires Aligned(page, order) && page != Lower(page, order)
      ensures var l := Lower(page, order);
        page >= l && !Aligned(Buddy(l, order + 1) + (page - l), order + 1)
    {
      hide Aligned, Lower, Buddy, Pow2;
      var l := Lower(page, order);
      Halves(page, order);
      BuddyBuddy(l, order + 1);
      PairOfRun(Buddy(l, order + 1), order);
    }

    lemma UnalignedIsNoBuddy(page: nat, buddy: nat, order: nat)
      requires Valid() && page < memMap.Length && !Aligned(buddy, order)
      ensures !PageIsBuddy(page, buddy, order)
    {
      hide FreePages, Merged, Linked;
      if buddy in blocks { BlockInZone(buddy); }
    }

    /** The test behind the tail placement. The offset of the higher buddy is taken from page
        itself: for an upper half it names a misaligned page, which heads no block. */
    method HigherBuddyFree(page: nat, order: nat, pageIdx: nat, buddyIdx0: nat, buddy: nat) returns (tail: bool)
      requires Valid() && order + 1 < maxOrder && Aligned(page, order) && InZone(page)
      requires pageIdx == And(page, Pow2(maxOrder) - 1) && buddyIdx0 == Xor(pageIdx, Pow2(order))
      requires buddy == Buddy(page, order)
      ensures tail <==> LikelyToMerge(blocks, page, order)
    {
      hide FreePages, Canonical, Linked, Aligned, Lower, Upper, Xor, And, Pow2;
      tail := false;
      if order + 2 < maxOrder && buddy < memMap.Length && pfnValid[buddy] {
        var combinedIdx := And(buddyIdx0, pageIdx);
        HigherBuddyIndex(page, order, pageIdx, combinedIdx);
        if page != Lower(page, order) { ShiftedBuddyUnaligned(page, order); }
        var higherPage := page + combinedIdx - pageIdx;
        var buddyIdx := Xor(combinedIdx, Pow2(order + 1));
        var higherBuddy := page + buddyIdx - combinedIdx;
        tail := PageIsBuddy(higherPage, higherBuddy, order + 1);
        if page == Lower(page, order) {
          PageIsBuddyIffBlock(page, higherBuddy, order + 1);
        } else {
          UnalignedIsNoBuddy(higherPage, higherBuddy, order + 1);
        }
      }
    }

    /** The loop of __free_one_page: absorb the buddy of each order while it is a free block. */
    method MergeBuddies(page0: nat, order0: nat)
      returns (page: nat, order: nat, pageIdx: nat, buddyIdx: nat, buddy: nat)
      requires Valid() && Balanced() && order0 < maxOrder && Aligned(page0, order0)
      requires Run(page0, order0) <= ZonePages() && Run(page0, order0) !! FreePages(blocks)
      modifies `freeArea, `blocks, `typ, memMap
      ensures Valid() && Balanced()
      ensures page == RunHead(page0, order0, order) && Run(page, order) <= ZonePages()
      ensures Merging(old(blocks), page0, order0, order, blocks, maxOrder)
      ensures ListsAfterFree(old(freeArea), freeArea, maxOrder, page0, order0, order, MIGRATE_TYPES, false)
      ensures forall h :: h in blocks ==> h in old(blocks) && h in old(typ) && h in typ && typ[h] == old(typ)[h]
      ensures order + 1 < maxOrder ==>
        && buddy == Buddy(page, order) && !IsBlock(blocks, buddy, order)
        && pageIdx == And(page, Pow2(maxOrder) - 1) && buddyIdx == Xor(pageIdx, Pow2(order))
      ensures forall p :: 0 <= p < memMap.Length && p !in old(FreePages(blocks)) + Run(page0, order0) ==> memMap[p] == old(memMap[p])
    {
      hide Merging, ListsAfterFree, Coalesce, Lower, Buddy, Xor, And, Aligned, RunHead, Pow2;
      hide FreePages, Canonical, Linked, Counted, AddNr, Delete, Run;
      MergingStart(blocks, freeArea, page0, order0, maxOrder);
      page, order := page0, order0;
      pageIdx := And(page, Pow2(maxOrder) - 1);
      buddyIdx, buddy := 0, 0;
      while order + 1 < maxOrder
        invariant Valid() && Balanced() && order0 <= order < maxOrder
        invariant page == RunHead(page0, order0, order) && Aligned(page, order)
        invariant Merging(old(blocks), page0, order0, order, blocks, maxOrder)
        invariant ListsAfterFree(old(freeArea), freeArea, maxOrder, page0, order0, order, MIGRATE_TYPES, false)
        invariant Run(page, order) <= ZonePages()
        invariant pageIdx == And(page, Pow2(maxOrder) - 1)
        invariant forall h :: h in blocks ==> h in old(blocks) && h in old(typ) && h in typ && typ[h] == old(typ)[h]
        invariant forall p :: 0 <= p < memMap.Length && p !in old(FreePages(blocks)) + Run(page0, order0) ==> memMap[p] == old(memMap[p])
      {
        BuddyIndex(page, order, maxOrder);
        buddyIdx := Xor(pageIdx, Pow2(order));
        buddy := page + buddyIdx - pageIdx;
        InRunIff(page, order);
        PageIsBuddyIffBlock(page, buddy, order);
        if !PageIsBuddy(page, buddy, order) {
          break;
        }
        var combinedIdx := And(buddyIdx, pageIdx);
        var next := page + combinedIdx - pageIdx;
        BuddyBuddy(page, order);
        BlockInZone(buddy);
        BlockInFreePages(old(blocks), buddy);
        MergingStep(old(blocks), page0, order0, order, blocks, maxOrder);
        ListsStep(old(freeArea), freeArea, maxOrder, page0, order0, order);
        TakeBlock(buddy);
        page, pageIdx, order := next, combinedIdx, order + 1;
      }
    }

    /** __free_one_page: merge with free buddies, then link the merged block. */
    method FreeOnePage(page0: nat, order0: nat, mt: nat) returns (ghost head: nat, ghost top: nat)
      requires Valid() && Balanced()
      requires order0 < maxOrder && mt < MIGRATE_TYPES && Aligned(page0, order0)
      requires Run(page0, order0) <= ZonePages() && Run(page0, order0) !! FreePages(blocks)
      modifies `freeArea, `blocks, `typ, memMap
      ensures Valid() && Balanced()
      ensures blocks == Coalesce(old(blocks), page0, order0, maxOrder)
      ensures FreePages(blocks) == old(FreePages(blocks)) + Run(page0, order0)
      ensures forall h :: h in blocks && h != head ==> h in old(blocks) && h in old(typ) && typ[h] == old(typ)[h]
      ensures order0 <= top < maxOrder && head == RunHead(page0, order0, top)
      ensures IsBlock(blocks, head, top) && typ[head] == mt
      // merged buddies leave their lists; the block goes to the tail exactly if it is the lower
      // half of its pair and the pair's own buddy is a free block
      ensures ListsAfterFree(old(freeArea), freeArea, maxOrder, page0, order0, top, mt,
                             LikelyToMerge(old(blocks), head, top))
      ensures var l := freeArea[top].lists[mt];
        l != [] && head == if LikelyToMerge(old(blocks), head, top) then l[|l| - 1] else l[0]
      ensures forall p :: 0 <= p < memMap.Length && p !in FreePages(blocks) ==> memMap[p] == old(memMap[p])
    {
      hide Aligned, Lower, Buddy, Xor, And, RunHead, Pow2, Merging, ListsAfterFree;
      hide FreePages, Canonical, Linked, Counted, AddNr, Push, Run;
      CoalesceCanonical(blocks, page0, order0, maxOrder);
      var page, order, pageIdx, buddyIdx, buddy := MergeBuddies(page0, order0);
      MergingEnd(old(blocks), page0, order0, order, blocks, maxOrder);
      head, top := page, order;
      var tail := false;
      if order + 1 < maxOrder {
        tail := HigherBuddyFree(page, order, pageIdx, buddyIdx, buddy);
      }
      ListsEnd(old(freeArea), freeArea, maxOrder, page0, order0, top, mt, tail);
      PushedEnd(old(freeArea), freeArea, maxOrder, page0, order0, top, mt, tail);
      LinkBlock(page, order, mt, tail);
    }

    /** expand: give the upper half of the run back at every order from high down to low. */
    method Expand(page: nat, low: nat, high: nat, mt: nat)
      requires Valid() && Balanced() && low <= high < maxOrder && mt < MIGRATE_TYPES && Aligned(page, high)
      requires Run(page, high) <= ZonePages() && Run(page, high) !! FreePages(blocks)
      modifies `freeArea, `blocks, `typ, memMap
      ensures Valid() && Balanced()
      ensures blocks == Split(old(blocks), page, low, high)
      ensures FreePages(blocks) == old(FreePages(blocks)) + (Run(page, high) - Run(page, low))
      ensures forall h :: h in blocks ==> typ[h] == if h in old(blocks) then old(typ)[h] else mt
      ensures ListsAfterSplit(old(freeArea), freeArea, maxOrder, page, low, high, mt)
      ensures forall k :: low <= k < high ==> freeArea[k].lists[mt] != [] && freeArea[k].lists[mt][0] == page + Pow2(k)
      ensures forall p :: 0 <= p < memMap.Length && p !in Run(page, high) ==> memMap[p] == old(memMap[p])
    {
      hide Aligned, Lower, Buddy, FreePages, Canonical, Linked, Counted, Run, AddNr, Push, ListsAfterSplit, Split, Pow2, ZonePages;
      SplitCanonical(blocks, page, low, high, maxOrder);
      SplitListsStart(freeArea, maxOrder, page, high, mt);
      var h, size := high, Pow2(high);
      while h > low
        invariant low <= h <= high && size == Pow2(h)
        invariant Valid() && Balanced()
        invariant Split(blocks, page, low, h) == Split(old(blocks), page, low, high)
        invariant Aligned(page, h) && Run(page, h) <= Run(page, high) && Run(page, h) !! FreePages(blocks)
        invariant forall k :: k in old(blocks) ==> k in blocks
        invariant forall k :: k in blocks ==> typ[k] == if k in old(blocks) then old(typ)[k] else mt
        invariant ListsAfterSplit(old(freeArea), freeArea, maxOrder, page, h, high, mt)
        invariant forall p :: 0 <= p < memMap.Length && p !in Run(page, high) ==> memMap[p] == old(memMap[p])
      {
        h := h - 1;
        size := size / 2;
        SplitStep(blocks, page, low, h, FreePages(blocks));
        SplitListsStep(old(freeArea), freeArea, maxOrder, page, h, high, mt);
        LinkBlock(page + size, h, mt, false);
      }
      SplitDone(blocks, page, low);
      SplitHeads(old(freeArea), freeArea, maxOrder, page, low, high, mt);
    }

    /** A run of order o was allocated from the free block headed by p. */
    ghost predicate Allocated(b: BlockMap, b': BlockMap, p: nat, o: nat) {
      && p in b && o <= b[p] < maxOrder && b' == Allocate(b, p, o)
      && Aligned(p, o) && Run(p, o) <= FreePages(b) && FreePages(b') == FreePages(b) - Run(p, o)
    }

    /** Types after an allocation from p: what remains of the split block gets type mt. */
    ghost predicate Retyped(typ0: map<nat, nat>, typ: map<nat, nat>, p: nat, mt: nat) {
      forall h :: h in typ ==> typ[h] == if h in typ0 && h != p then typ0[h] else mt
    }

    lemma ListHead(o: nat, t: nat)
      requires Valid() && o < maxOrder && t < MIGRATE_TYPES && freeArea[o].lists[t] != []
      ensures var p := freeArea[o].lists[t][0]; IsBlock(blocks, p, o) && typ[p] == t
    {
      hide FreePages, Canonical, Linked;
      FirstOnList(freeArea, blocks, typ, maxOrder, o, t);
    }

    lemma AllocatedBlock(b: BlockMap, p: nat, o: nat)
      requires Canonical(b, maxOrder) && p in b && o <= b[p] < maxOrder
      ensures Allocated(b, Split(b - {p}, p, o, b[p]), p, o)
    {
      hide FreePages, Canonical, Run, Aligned, Split;
      AllocateCanonical(b, p, o, maxOrder);
    }

    /** Remove the block p from its list and split it down to the requested order. */
    method TakeAndExpand(p: nat, order: nat, mt: nat)
      requires Valid() && Balanced() && p in blocks && order <= blocks[p] && mt < MIGRATE_TYPES
      modifies `freeArea, `blocks, `typ, memMap
      ensures Valid() && Balanced()
      ensures Allocated(old(blocks), blocks, p, order) && Retyped(old(typ), typ, p, mt)
      ensures var cur := old(blocks)[p];
        && Shaped(old(freeArea), maxOrder) && cur < maxOrder
        && ListsAfterSplit(AddNr(Delete(old(freeArea), cur, p), cur, -1), freeArea, maxOrder, p, order, cur, mt)
      ensures forall q :: 0 <= q < memMap.Length && q !in old(FreePages(blocks)) ==> memMap[q] == old(memMap[q])
    {
      hide Aligned, FreePages, Canonical, Linked, Counted, Run, AddNr, Delete, Split, Pow2, ListsAfterSplit, Allocated, ZonePages;
      BlockInZone(p);
      BlockInFreePages(blocks, p);
      AllocatedBlock(blocks, p, order);
      var cur := memMap[p].priv;
      TakeBlock(p);
      Expand(p, order, cur, mt);
    }

    /** __rmqueue_smallest: the first block of the smallest sufficient order on mt's lists. */
    method RmqueueSmallest(order: nat, mt: nat) returns (page: Option<nat>)
      requires Valid() && Balanced() && mt < MIGRATE_TYPES
      modifies `freeArea, `blocks, `typ, memMap
      ensures Valid() && Balanced()
      ensures Shaped(old(freeArea), maxOrder) && (page.None? <==> NoneOfType(old(freeArea), maxOrder, order, mt))
      ensures page.None? ==> unchanged(`freeArea) && unchanged(`blocks) && unchanged(`typ) && unchanged(memMap)
      ensures page.Some? ==>
        var p := page.value;
        && Allocated(old(blocks), blocks, p, order) && Retyped(old(typ), typ, p, mt)
        && p in old(typ) && old(typ)[p] == mt
        && SmallestChoice(old(freeArea), old(blocks), maxOrder, p, order, mt)
        && var cur := old(blocks)[p];
        && ListsAfterSplit(AddNr(Delete(old(freeArea), cur, p), cur, -1), freeArea, maxOrder, p, order, cur, mt)
      ensures forall q :: 0 <= q < memMap.Length && q !in old(FreePages(blocks)) ==> memMap[q] == old(memMap[q])
    {
      hide Aligned, FreePages, Canonical, Linked, Counted, Run, AddNr, Delete, Split, Pow2, ListsAfterSplit, Allocated, ZonePages, Retyped;
      var currentOrder := order;
      while currentOrder < maxOrder
        invariant order <= currentOrder
        invariant forall k :: order <= k < currentOrder && k < maxOrder ==> freeArea[k].lists[mt] == []
        invariant unchanged(`freeArea) && unchanged(`blocks) && unchanged(`typ) && unchanged(memMap)
      {
        if freeArea[currentOrder].lists[mt] != [] {
          ListHead(currentOrder, mt);
          var p := freeArea[currentOrder].lists[mt][0];
          TakeAndExpand(p, order, mt);
          return Some(p);
        }
        currentOrder := currentOrder + 1;
      }
      return None;
    }

    /** One block moves to the head of the list of type mt of its order. */
    method MoveBlock(h: nat, mt: nat)
      requires Valid() && h in blocks && mt < MIGRATE_TYPES
      modifies `freeArea, `typ
      ensures Valid() && typ == old(typ)[h := mt] && blocks[h] < maxOrder
      ensures freeArea == Push(Delete(old(freeArea), blocks[h], h), blocks[h], mt, h, false)
    {
      hide Aligned, FreePages, Canonical, Linked, Push, Delete, Run, ZonePages;
      BlockInZone(h);
      MoveLinked(freeArea, blocks, typ, maxOrder, h, mt);
      var order := memMap[h].priv;
      freeArea := Push(Delete(freeArea, order, h), order, mt, h, false);
      typ := typ[h := mt];
    }

    /** Types after every block headed in lo .. hi moved to type mt. */
    ghost predicate MovedTypes(typ0: map<nat, nat>, lo: nat, hi: nat, mt: nat)
      reads this
    {
      typ.Keys == typ0.Keys && forall h :: h in typ ==> typ[h] == if lo <= h < hi then mt else typ0[h]
    }

    /** move_freepages: move the free blocks headed in the range to the lists of type mt. */
    method MoveFreepages(startPage: nat, endPage: nat, mt: nat) returns (pagesMoved: nat)
      requires Valid() && mt < MIGRATE_TYPES && start <= startPage <= endPage + 1 && endPage < end
      modifies `freeArea, `typ
      ensures Valid()
      ensures MovedTypes(old(typ), startPage, endPage + 1, mt)
      ensures ListsAfterMove(old(freeArea), freeArea, blocks, maxOrder, startPage, endPage + 1, mt)
      ensures pagesMoved == |FreePages(HeadsIn(blocks, startPage, endPage + 1))|
    {
      hide Aligned, FreePages, Canonical, Linked, Run, ZonePages, Pow2, HeadsIn, ListsAfterMove, Push, Delete;
      ghost var fa0, typ0 := freeArea, typ;
      var page := startPage;
      pagesMoved := 0;
      assert Linked(fa0, blocks, typ0, maxOrder) && Geometry();
      MoveStart(fa0, blocks, maxOrder, startPage, mt);
      HeadsInEmpty(blocks, startPage);
      while page <= endPage
        invariant Valid() && startPage <= page
        invariant MovedTypes(old(typ), startPage, page, mt)
        invariant pagesMoved == |FreePages(HeadsIn(blocks, startPage, page))|
        invariant forall h :: h in blocks && h > endPage ==> h >= page
        invariant ListsAfterMove(fa0, freeArea, blocks, maxOrder, startPage, page, mt)
      {
        if page in blocks { BlockInZone(page); }
        if !pfnValid[page] || !memMap[page].buddy {
          HeadsInNone(blocks, startPage, page, page + 1);
          MoveSkip(fa0, freeArea, blocks, typ0, maxOrder, startPage, page, page + 1, mt);
          page := page + 1;
        } else {
          var order := memMap[page].priv;
          HeadsInBlock(blocks, maxOrder, startPage, page);
          MoveStep(fa0, freeArea, blocks, typ0, maxOrder, startPage, page, mt);
          MoveBlock(page, mt);
          pagesMoved := pagesMoved + Pow2(order);
          MoveSkip(fa0, freeArea, blocks, typ0, maxOrder, startPage, page + 1, page + Pow2(order), mt);
          page := page + Pow2(order);
        }
      }
      HeadsInNone(blocks, startPage, endPage + 1, page);
      MoveSkip(fa0, freeArea, blocks, typ0, maxOrder, startPage, endPage + 1, page, mt);
    }

    /** move_freepages_block: the same for the pageblock of page, unless it crosses the zone's end. */
    method MoveFreepagesBlock(page: nat, mt: nat) returns (pagesMoved: nat)
      requires Valid() && InZone(page) && mt < MIGRATE_TYPES
      modifies `freeArea, `typ
      ensures Valid()
      ensures var s := AlignDown(page, pageblockOrder);
        var e := s + Pow2(pageblockOrder);
        var lo := if s < start then page else s;
        if e > end
        then typ == old(typ) && freeArea == old(freeArea) && pagesMoved == 0
        else
          && MovedTypes(old(typ), lo, e, mt) && ListsAfterMove(old(freeArea), freeArea, blocks, maxOrder, lo, e, mt)
          && pagesMoved == |FreePages(HeadsIn(blocks, lo, e))|
    {
      hide Aligned, FreePages, Canonical, Linked, Run, ZonePages, Pow2, HeadsIn, AlignDown, ListsAfterMove;
      var startPfn := AlignDown(page, pageblockOrder);
      var startPage := startPfn;
      var endPfn := startPfn + Pow2(pageblockOrder) - 1;
      if startPfn < start {
        startPage := page;
      }
      if endPfn >= end {
        return 0;
      }
      pagesMoved := MoveFreepages(startPage, endPfn, mt);
    }

    /** set_pageblock_migratetype. */
    method SetPageblockMigratetype(page: nat, mt: nat)
      requires Valid() && page < memMap.Length && mt < MIGRATE_TYPES
      modifies blockType
      ensures Valid()
      ensures Shr(page, pageblockOrder) < blockType.Length
      ensures blockType[..] == old(blockType[..])[Shr(page, pageblockOrder) := PageblockType(mt)]
      ensures blockType[Shr(page, pageblockOrder)] == if groupingDisabled then MIGRATE_UNMOVABLE else mt
    {
      hide Aligned, FreePages, Canonical, Linked, Run, ZonePages, Pow2, Shr;
      blockType[Shr(page, pageblockOrder)] := PageblockType(mt);
    }

    function PageblockType(mt: nat): nat {
      if groupingDisabled then MIGRATE_UNMOVABLE else mt
    }

    /** change_pageblock_range: retype every pageblock of a run of at least one pageblock. */
    method ChangePageblockRange(page: nat, startOrder: nat, mt: nat)
      requires Valid() && mt < MIGRATE_TYPES && pageblockOrder <= startOrder
      requires page + Pow2(startOrder) <= memMap.Length
      modifies blockType
      ensures Valid()
      ensures var s := Shr(page, pageblockOrder);
        forall i :: 0 <= i < blockType.Length ==>
          blockType[i] == if s <= i < s + Pow2(startOrder - pageblockOrder) then PageblockType(mt) else old(blockType[i])
    {
      hide Aligned, FreePages, Canonical, Linked, Run, ZonePages, Pow2, Shr, PageblockType;
      var n := Pow2(startOrder - pageblockOrder);
      var nrPageblocks, p := n, page;
      ghost var s := Shr(page, pageblockOrder);
      Pow2Split(startOrder - pageblockOrder, pageblockOrder);
      while nrPageblocks > 0
        invariant 0 <= nrPageblocks <= n && Valid()
        invariant p + nrPageblocks * Pow2(pageblockOrder) == page + Pow2(startOrder)
        invariant Shr(p, pageblockOrder) == s + (n - nrPageblocks)
        invariant forall i :: 0 <= i < blockType.Length ==>
          blockType[i] == if s <= i < s + (n - nrPageblocks) then PageblockType(mt) else old(blockType[i])
      {
        OneLess(nrPageblocks, Pow2(pageblockOrder));
        SetPageblockMigratetype(p, mt);
        ShrNext(p, pageblockOrder);
        p := p + Pow2(pageblockOrder);
        nrPageblocks := nrPageblocks - 1;
      }
    }

    /** __rmqueue_fallback takes ownership of the free blocks around a large block, for reclaimable pages
        around any block. */
    predicate Claims(cur: nat, mt: nat) {
      cur >= pageblockOrder / 2 || mt == MIGRATE_RECLAIMABLE || groupingDisabled
    }

    /** The pages of p's pageblock that may be claimed, up to ClaimEnd. */
    function ClaimStart(p: nat): nat {
      var s := AlignDown(p, pageblockOrder);
      if s < start then p else s
    }

    function ClaimEnd(p: nat): nat {
      AlignDown(p, pageblockOrder) + Pow2(pageblockOrder)
    }

    /** Whether the claim moves blocks: not if p's pageblock crosses the zone's end. */
    predicate ClaimMoves(p: nat, cur: nat, mt: nat) {
      Claims(cur, mt) && ClaimEnd(p) <= end
    }

    /** The free lists after the claim. */
    ghost predicate ClaimedLists(before: FreeAreas, after: FreeAreas, b: BlockMap, p: nat, cur: nat, mt: nat) {
      if ClaimMoves(p, cur, mt) then ListsAfterMove(before, after, b, maxOrder, ClaimStart(p), ClaimEnd(p), mt) else after == before
    }

    /** The type of each block after the claim. */
    function ClaimedType(t: nat, h: nat, p: nat, cur: nat, mt: nat): nat {
      if ClaimMoves(p, cur, mt) && ClaimStart(p) <= h < ClaimEnd(p) then mt else t
    }

    /** Over half of p's pageblock is free. */
    ghost predicate MostlyFree(b: BlockMap, p: nat)
      requires pageblockOrder >= 1
    {
      ClaimEnd(p) <= end && |FreePages(HeadsIn(b, ClaimStart(p), ClaimEnd(p)))| >= Pow2(pageblockOrder - 1)
    }

    /** The pageblock types after a fallback from mt to the block p of order cur: p's own pageblock is
        claimed, and so is every pageblock that p covers. */
    ghost predicate ClaimedBlocks(before: seq<nat>, after: seq<nat>, b: BlockMap, p: nat, cur: nat, mt: nat)
      requires pageblockOrder >= 1
    {
      var s := Shr(p, pageblockOrder);
      |after| == |before| && forall i :: 0 <= i < |after| ==>
        after[i] ==
          if (i == s && Claims(cur, mt) && (MostlyFree(b, p) || groupingDisabled)) ||
             (cur >= pageblockOrder && s <= i < s + Pow2(cur - pageblockOrder))
          then PageblockType(mt) else before[i]
    }

    /** Types after falling back from mt to the block p: those of a claimed range become mt, and what
        remains of p's block has type mt if there was a claim, p's old type if not. */
    ghost predicate RetypedFallback(typ0: map<nat, nat>, typ: map<nat, nat>, p: nat, cur: nat, mt: nat)
      requires p in typ0
    {
      forall h :: h in typ ==>
        typ[h] ==
          if h in typ0 && h != p then ClaimedType(typ0[h], h, p, cur, mt)
          else if Claims(cur, mt) then mt else typ0[p]
    }

    /** What a fallback from mt to the block p leaves: the claim comes before the block is unlinked and
        split, and the split takes place on the lists of the new type. */
    ghost predicate FellBack(z0: Shot, z1: Shot, p: nat, order: nat, mt: nat) {
      && p in z0.blocks && p in z0.typ && z0.blocks[p] < maxOrder == |z0.freeArea| && pageblockOrder >= 1
      && var cur := z0.blocks[p];
         && RetypedFallback(z0.typ, z1.typ, p, cur, mt)
         && ClaimedBlocks(z0.blockType, z1.blockType, z0.blocks, p, cur, mt)
         && exists fa1 ::
              && ClaimedLists(AddNr(z0.freeArea, cur, -1), fa1, z0.blocks, p, cur, mt) && |fa1| == maxOrder
              && ListsAfterSplit(Delete(fa1, cur, p), z1.freeArea, maxOrder, p, order, cur, if Claims(cur, mt) then mt else z0.typ[p])
    }

    /** The types after a fallback, apart from which pages lie in the pageblock: a small block for a request that is
        not reclaimable changes no other block and is split on its own type's lists; otherwise the remainder has
        the type asked for, and so may other blocks. */
    ghost predicate FallbackTypes(typ0: map<nat, nat>, typ: map<nat, nat>, p: nat, cur: nat, mt: nat)
      requires p in typ0
    {
      var claim := cur >= pageblockOrder / 2 || mt == MIGRATE_RECLAIMABLE || groupingDisabled;
      forall h :: h in typ ==>
        if h in typ0 && h != p then typ[h] == typ0[h] || (claim && typ[h] == mt)
        else typ[h] == if claim then mt else typ0[p]
    }

    lemma FallbackTyped(z0: Shot, z1: Shot, p: nat, order: nat, mt: nat)
      requires FellBack(z0, z1, p, order, mt)
      ensures p in z0.typ && p in z0.blocks && FallbackTypes(z0.typ, z1.typ, p, z0.blocks[p], mt)
    {
      hide ClaimedLists, ListsAfterSplit, ClaimedBlocks, ClaimStart, ClaimEnd;
    }

    /** Taking ownership: move the block's pageblock to startMt, and claim it if over half of it
        is free. */
    method ClaimPageblock(p: nat, cur: nat, startMt: nat, listMt: nat) returns (migratetype: nat)
      requires Valid() && InZone(p) && startMt < MIGRATE_TYPES && listMt < MIGRATE_TYPES
      modifies `freeArea, `typ, blockType
      ensures Valid() && migratetype == if Claims(cur, startMt) then startMt else listMt
      ensures typ.Keys == old(typ).Keys && forall h :: h in typ ==> typ[h] == ClaimedType(old(typ)[h], h, p, cur, startMt)
      ensures ClaimedLists(old(freeArea), freeArea, blocks, p, cur, startMt)
      ensures forall k :: 0 <= k < maxOrder ==> freeArea[k].nrFree == old(freeArea)[k].nrFree
      ensures Shr(p, pageblockOrder) < blockType.Length
      ensures blockType[..] ==
        if Claims(cur, startMt) && (MostlyFree(blocks, p) || groupingDisabled)
        then old(blockType[..])[Shr(p, pageblockOrder) := PageblockType(startMt)] else old(blockType[..])
    {
      hide Aligned, FreePages, Canonical, Linked, Run, ZonePages, Pow2, Shr, PageblockType, AlignDown, HeadsIn;
      migratetype := listMt;
      if cur >= pageblockOrder / 2 || startMt == MIGRATE_RECLAIMABLE || groupingDisabled {
        var pages := MoveFreepagesBlock(p, startMt);
        if pages >= Pow2(pageblockOrder - 1) || groupingDisabled {
          SetPageblockMigratetype(p, startMt);
        }
        migratetype := startMt;
      }
    }

    lemma ChangedBlocks(bt0: seq<nat>, bt1: seq<nat>, bt: seq<nat>, b: BlockMap, p: nat, cur: nat, mt: nat)
      requires Geometry() && Shr(p, pageblockOrder) < |bt0| && |bt| == |bt0|
      requires bt1 == if Claims(cur, mt) && (MostlyFree(b, p) || groupingDisabled)
                      then bt0[Shr(p, pageblockOrder) := PageblockType(mt)] else bt0
      requires forall i :: 0 <= i < |bt| ==>
        bt[i] == if cur >= pageblockOrder && Shr(p, pageblockOrder) <= i < Shr(p, pageblockOrder) + Pow2(cur - pageblockOrder)
                 then PageblockType(mt) else bt1[i]
      ensures ClaimedBlocks(bt0, bt, b, p, cur, mt)
    {
      hide Claims, MostlyFree, Shr, PageblockType, Pow2;
    }

    lemma FellBackBy(z0: Shot, z1: Shot, fa1: FreeAreas, typ1: map<nat, nat>, p: nat, order: nat, mt: nat, newMt: nat)
      requires Geometry() && p in z0.blocks && p in z0.typ && z0.blocks[p] < maxOrder == |z0.freeArea| == |fa1| && typ1.Keys == z0.typ.Keys
      requires newMt == if Claims(z0.blocks[p], mt) then mt else z0.typ[p]
      requires forall h :: h in typ1 ==> typ1[h] == ClaimedType(z0.typ[h], h, p, z0.blocks[p], mt)
      requires forall h :: h in z1.typ ==> z1.typ[h] == if h in typ1 && h != p then typ1[h] else newMt
      requires ClaimedBlocks(z0.blockType, z1.blockType, z0.blocks, p, z0.blocks[p], mt)
      requires ClaimedLists(AddNr(z0.freeArea, z0.blocks[p], -1), fa1, z0.blocks, p, z0.blocks[p], mt)
      requires ListsAfterSplit(Delete(fa1, z0.blocks[p], p), z1.freeArea, maxOrder, p, order, z0.blocks[p], newMt)
      ensures FellBack(z0, z1, p, order, mt)
    {
      hide Claims, ClaimedType, ClaimedBlocks, ClaimedLists, ListsAfterSplit, Delete, AddNr;
    }

    /** The part of __rmqueue_fallback that runs once a block has been found. */
    method ClaimFallback(p: nat, order: nat, startMt: nat, listMt: nat)
      requires Valid() && Balanced() && p in blocks && order <= blocks[p]
      requires startMt < MIGRATE_TYPES && p in typ && typ[p] == listMt && listMt < MIGRATE_TYPES
      modifies `freeArea, `blocks, `typ, memMap, blockType
      ensures Valid() && Balanced()
      ensures Allocated(old(blocks), blocks, p, order)
      ensures FellBack(old(Now()), Now(), p, order, startMt)
      ensures forall q :: 0 <= q < memMap.Length && q !in old(FreePages(blocks)) ==> memMap[q] == old(memMap[q])
    {
      hide Aligned, FreePages, Canonical, Linked, Run, ZonePages, Pow2, Shr, Delete, Split, ListsAfterSplit, Allocated, PageblockType, Counted;
      hide Claims, ClaimStart, ClaimEnd, ClaimMoves, ClaimedLists, ClaimedType, MostlyFree, FellBack, RetypedFallback, ClaimedBlocks;
      ghost var z0, fa, b0, bt0 := Now(), freeArea, blocks, blockType[..];
      BlockInZone(p);
      BlockInFreePages(blocks, p);
      AllocatedBlock(blocks, p, order);
      RemoveBlock(blocks, p, maxOrder);
      var cur := memMap[p].priv;
      freeArea := AddNr(freeArea, cur, -1);
      AddNrLinked(fa, blocks, typ, maxOrder, cur, -1);
      var migratetype := ClaimPageblock(p, cur, startMt, listMt);
      ghost var fa1, typ1, bt1 := freeArea, typ, blockType[..];
      CountedEarly(fa, Delete(freeArea, cur, p), blocks, maxOrder, p);
      UnlinkBlock(p);
      if cur >= pageblockOrder {
        RunInMemMap(p, cur);
        ChangePageblockRange(p, cur, startMt);
      }
      ChangedBlocks(bt0, bt1, blockType[..], b0, p, cur, startMt);
      Expand(p, order, cur, migratetype);
      FellBackBy(z0, Now(), fa1, typ1, p, order, startMt, migratetype);
    }

    /** __rmqueue_fallback: the first block of the largest order on a list of another type. */
    method RmqueueFallback(order: nat, startMt: nat) returns (page: Option<nat>)
      requires Valid() && Balanced() && startMt < MIGRATE_PCPTYPES
      modifies `freeArea, `blocks, `typ, memMap, blockType
      ensures Valid() && Balanced()
      ensures Shaped(old(freeArea), maxOrder) && (page.None? <==> NoFallbacks(old(freeArea), maxOrder, order, startMt))
      ensures page.None? ==> unchanged(`freeArea) && unchanged(`blocks) && unchanged(`typ) && unchanged(memMap) && unchanged(blockType)
      ensures page.Some? ==>
        var p := page.value;
        && Allocated(old(blocks), blocks, p, order)
        && FallbackChoice(old(freeArea), old(blocks), old(typ), maxOrder, p, order, startMt)
        && p in old(typ) && old(typ)[p] < MIGRATE_RESERVE
        && Preferred(old(freeArea)[old(blocks)[p]], old(typ)[p], startMt)
        && FellBack(old(Now()), Now(), p, order, startMt)
        && FallbackTypes(old(typ), typ, p, old(blocks)[p], startMt)
      ensures forall q :: 0 <= q < memMap.Length && q !in old(FreePages(blocks)) ==> memMap[q] == old(memMap[q])
    {
      hide Aligned, FreePages, Canonical, Linked, Run, ZonePages, Allocated, Counted, FellBack, FallbackTypes, Fallback;
      var currentOrder := maxOrder;
      while currentOrder > order
        invariant currentOrder <= maxOrder
        invariant forall k: nat :: currentOrder <= k < maxOrder ==> NoFallback(freeArea, k, startMt)
        invariant unchanged(`freeArea) && unchanged(`blocks) && unchanged(`typ) && unchanged(memMap) && unchanged(blockType)
      {
        currentOrder := currentOrder - 1;
        for i := 0 to MIGRATE_TYPES - 1
          invariant forall j :: 0 <= j < i && Fallback(startMt, j) != MIGRATE_RESERVE ==> freeArea[currentOrder].lists[Fallback(startMt, j)] == []
          invariant unchanged(`freeArea) && unchanged(`blocks) && unchanged(`typ) && unchanged(memMap) && unchanged(blockType)
        {
          var migratetype := Fallback(startMt, i);
          if migratetype == MIGRATE_RESERVE {
            continue;
          }
          if freeArea[currentOrder].lists[migratetype] == [] {
            continue;
          }
          ListHead(currentOrder, migratetype);
          var p := freeArea[currentOrder].lists[migratetype][0];
          assert !NoFallback(old(freeArea), currentOrder, startMt);
          FallbackPrefers(freeArea, blocks, typ, maxOrder, p, order, startMt);
          ClaimFallback(p, order, startMt, migratetype);
          FallbackTyped(old(Now()), Now(), p, order, startMt);
          return Some(p);
        }
      }
      return None;
    }

    lemma OrdersBounded()
      requires Valid()
      ensures forall h :: h in blocks ==> blocks[h] < maxOrder
    {
      hide FreePages, Merged, Linked;
    }

    /** What serving a request for type mt with the block p leaves: a block of that type or of the reserve is
        split on the lists of its own type and no pageblock changes; any other is fallen back to. */
    ghost predicate Served(z0: Shot, z1: Shot, p: nat, order: nat, mt: nat) {
      && p in z0.blocks && p in z0.typ && z0.blocks[p] < |z0.freeArea|
      && var cur := z0.blocks[p];
         if z0.typ[p] == mt || z0.typ[p] == MIGRATE_RESERVE then
           && Retyped(z0.typ, z1.typ, p, z0.typ[p]) && z1.blockType == z0.blockType
           && ListsAfterSplit(AddNr(Delete(z0.freeArea, cur, p), cur, -1), z1.freeArea, maxOrder, p, order, cur, z0.typ[p])
         else FellBack(z0, z1, p, order, mt)
    }

    /** What __rmqueue does when it hands out p for type mt: the block chosen is served. */
    ghost predicate Taken(z0: Shot, z1: Shot, p: nat, order: nat, mt: nat)
      requires mt < MIGRATE_PCPTYPES
    {
      && Shaped(z0.freeArea, maxOrder) && Linked(z0.freeArea, z0.blocks, z0.typ, maxOrder)
      && Choice(z0.freeArea, z0.blocks, z0.typ, maxOrder, p, order, mt)
      && Allocated(z0.blocks, z1.blocks, p, order)
      && p in z0.typ && z0.typ[p] != MIGRATE_ISOLATE && Served(z0, z1, p, order, mt)
    }

    /** While there is a block of the type asked for, the block comes off a list of that type, and the lists of
        all other types and the types of all pageblocks stay as they are. */
    lemma OwnTypeFirst(z0: Shot, z1: Shot, p: nat, order: nat, mt: nat)
      requires mt < MIGRATE_PCPTYPES && Taken(z0, z1, p, order, mt) && !NoneOfType(z0.freeArea, maxOrder, order, mt)
      ensures z0.typ[p] == mt && z1.blockType == z0.blockType && Shaped(z1.freeArea, maxOrder)
      ensures forall k: nat, u: nat :: k < maxOrder && u < MIGRATE_TYPES && u != mt ==> z1.freeArea[k].lists[u] == z0.freeArea[k].lists[u]
    {
      hide Allocated, Without;
      var cur := z0.blocks[p];
      FirstOnList(z0.freeArea, z0.blocks, z0.typ, maxOrder, cur, mt);
      forall k: nat, u: nat | k < maxOrder && u < MIGRATE_TYPES && u != mt
        ensures z1.freeArea[k].lists[u] == z0.freeArea[k].lists[u]
      {
        NotLinked(z0.freeArea[k].lists[u], p);
      }
    }

    /** The pages of taken leave the zone one by one, each as __rmqueue serves a request for a page of type mt
        in the state before it. */
    ghost predicate TakenAll(z0: Shot, z1: Shot, shots: seq<Shot>, taken: seq<nat>, mt: nat)
      requires mt < MIGRATE_PCPTYPES
    {
      && |shots| == |taken| + 1 && shots[0] == z0 && shots[|taken|] == z1
      && forall i {:trigger taken[i]} :: 0 <= i < |taken| ==> Taken(shots[i], shots[i + 1], taken[i], 0, mt)
    }

    lemma NoneTaken(z: Shot, mt: nat)
      requires mt < MIGRATE_PCPTYPES
      ensures TakenAll(z, z, [z], [], mt)
    {
    }

    lemma TakenNext(z0: Shot, z: Shot, z1: Shot, shots: seq<Shot>, taken: seq<nat>, p: nat, mt: nat)
      requires mt < MIGRATE_PCPTYPES && TakenAll(z0, z, shots, taken, mt) && Taken(z, z1, p, 0, mt)
      ensures TakenAll(z0, z1, shots + [z1], taken + [p], mt)
    {
      hide Taken;
      var shots', taken' := shots + [z1], taken + [p];
      forall i | 0 <= i < |taken'|
        ensures Taken(shots'[i], shots'[i + 1], taken'[i], 0, mt)
      {
        if i < |taken| {
          assert taken'[i] == taken[i];
        }
      }
    }

    /** While blocks of type mt last, every page comes off a list of type mt, and the lists of all other types
        and the types of all pageblocks stay as they were at the start. */
    lemma {:induction false} OwnTypeLasts(z0: Shot, z1: Shot, shots: seq<Shot>, taken: seq<nat>, mt: nat, n: nat)
      requires mt < MIGRATE_PCPTYPES && TakenAll(z0, z1, shots, taken, mt) && n <= |taken| && Shaped(z0.freeArea, maxOrder)
      requires forall i :: 0 <= i < n ==> Shaped(shots[i].freeArea, maxOrder) && !NoneOfType(shots[i].freeArea, maxOrder, 0, mt)
      ensures forall i :: 0 <= i < n ==> taken[i] in shots[i].typ && shots[i].typ[taken[i]] == mt
      ensures shots[n].blockType == z0.blockType && Shaped(shots[n].freeArea, maxOrder)
      ensures forall k: nat, u: nat :: k < maxOrder && u < MIGRATE_TYPES && u != mt ==>
        shots[n].freeArea[k].lists[u] == z0.freeArea[k].lists[u]
      decreases n
    {
      hide Taken, NoneOfType;
      if n > 0 {
        OwnTypeLasts(z0, z1, shots, taken, mt, n - 1);
        assert Taken(shots[n - 1], shots[n - 1 + 1], taken[n - 1], 0, mt);
        TakenKnown(shots[n - 1], shots[n], taken[n - 1], 0, mt);
        OwnTypeFirst(shots[n - 1], shots[n], taken[n - 1], 0, mt);
      }
    }

    lemma TakenKnown(z0: Shot, z1: Shot, p: nat, order: nat, mt: nat)
      requires mt < MIGRATE_PCPTYPES && Taken(z0, z1, p, order, mt)
      ensures p in z0.typ && Shaped(z0.freeArea, maxOrder)
    {
    }

    lemma NotLinked(l: seq<nat>, p: nat)
      ensures p !in l ==> Without(l, p) == l
    {
    }

    lemma AllocatedOrder(b: BlockMap, b': BlockMap, p: nat, o: nat)
      requires Allocated(b, b', p, o)
      ensures p in b && o <= b[p] < maxOrder
    {
    }

    lemma NotOfType(fa: FreeAreas, b: BlockMap, t: map<nat, nat>, p: nat, order: nat, mt: nat)
      requires Linked(fa, b, t, maxOrder) && mt < MIGRATE_PCPTYPES && p in b && order <= b[p] < maxOrder
      requires NoneOfType(fa, maxOrder, order, mt)
      ensures p in t && t[p] != mt
    {
      assert p !in fa[b[p]].lists[mt];
    }

    /** __rmqueue: the preferred type, then the fallbacks, then the reserve. */
    method Rmqueue(order: nat, mt0: nat) returns (page: Option<nat>)
      requires Valid() && Balanced() && mt0 < MIGRATE_PCPTYPES
      modifies `freeArea, `blocks, `typ, memMap, blockType
      ensures Valid() && Balanced()
      ensures page.None? <==> !Available(old(blocks), old(typ), order)
      ensures page.None? ==> unchanged(`freeArea) && unchanged(`blocks) && unchanged(`typ) && unchanged(memMap) && unchanged(blockType)
      ensures page.Some? ==> Taken(old(Now()), Now(), page.value, order, mt0) && BestChoice(old(blocks), old(typ), page.value, order, mt0)
      ensures forall q :: 0 <= q < memMap.Length && q !in old(FreePages(blocks)) ==> memMap[q] == old(memMap[q])
    {
      hide Aligned, FreePages, Canonical, Linked, Run, ZonePages, Allocated, Counted, NoFallbacks, NoneOfType, SmallestChoice, FallbackChoice, BestChoice, ListsAfterSplit, AddNr, Delete, FellBack, Retyped;
      ghost var fa0, b0, typ0 := freeArea, blocks, typ;
      assert Linked(fa0, b0, typ0, maxOrder);
      OrdersBounded();
      AvailableIffLists(freeArea, blocks, typ, maxOrder, order, mt0);
      var migratetype := mt0;
      page := RmqueueSmallest(order, migratetype);
      if page.None? && migratetype != MIGRATE_RESERVE {
        page := RmqueueFallback(order, migratetype);
        if page.None? {
          migratetype := MIGRATE_RESERVE;
          page := RmqueueSmallest(order, migratetype);
        } else {
          assert b0[page.value] < maxOrder && order <= b0[page.value] by { AllocatedOrder(b0, blocks, page.value, order); }
          NotOfType(fa0, b0, typ0, page.value, order, mt0);
        }
      }
      if page.Some? {
        ChoiceMeans(fa0, b0, typ0, maxOrder, page.value, order, mt0);
      }
    }

    /** set_page_private of a page that is not in the buddy system. */
    method SetPagePrivate(page: nat, v: nat)
      requires Valid() && InZone(page) && page !in blocks
      modifies memMap
      ensures Valid()
      ensures memMap[..] == old(memMap[..])[page := PageFrame(false, v)]
    {
      hide Aligned, FreePages, Canonical, Linked, ZonePages;
      memMap[page] := memMap[page].(priv := v);
    }

    lemma RunInMemMap(p: nat, o: nat)
      requires Geometry() && Run(p, o) <= ZonePages()
      ensures p + Pow2(o) <= memMap.Length
    {
      assert InRun(p + Pow2(o) - 1, p, o);
      assert p + Pow2(o) - 1 in Run(p, o);
    }
  }

  lemma OneLess(n: nat, m: nat)
    requires n >= 1
    ensures n * m == (n - 1) * m + m && n * m >= m
  {
  }

  lemma SplitStep(b: BlockMap, page: nat, low: nat, o: nat, free: set<nat>)
    requires low <= o && Aligned(page, o + 1) && free == FreePages(b) && Run(page, o + 1) !! free
    ensures var u := page + Pow2(o);
      && Pow2(o + 1) == 2 * Pow2(o)
      && Split(b, page, low, o + 1) == Split(b[u := o], page, low, o)
      && Aligned(page, o) && Aligned(u, o) && !IsBlock(b, Buddy(u, o), o) && u in Run(u, o)
      && Run(page, o) <= Run(page, o + 1) && Run(u, o) <= Run(page, o + 1)
      && Run(u, o) !! free && Run(page, o) !! free + Run(u, o)
  {
    hide Aligned, Lower, Buddy, FreePages, Run;
    SplitRun(page, o);
    HeadInRun(page + Pow2(o), o);
    if page in b { BlockInFreePages(b, page); }
  }

  lemma SplitDone(b: BlockMap, page: nat, low: nat)
    ensures Split(b, page, low, low) == b
  {
  }

  lemma HeadInRun(h: nat, o: nat)
    ensures h in Run(h, o)
  {
    assert InRun(h, h, o);
  }

  lemma MergingEnd(b0: BlockMap, page0: nat, order0: nat, order: nat, b: BlockMap, maxOrder: nat)
    requires Merging(b0, page0, order0, order, b, maxOrder)
    requires order + 1 < maxOrder ==> !IsBlock(b, Buddy(RunHead(page0, order0, order), order), order)
    ensures var page := RunHead(page0, order0, order);
      && order0 <= order < maxOrder && Aligned(page, order) && Run(page, order) !! FreePages(b) && page in Run(page, order)
      && b[page := order] == Coalesce(b0, page0, order0, maxOrder)
      && FreePages(b) + Run(page, order) == FreePages(b0) + Run(page0, order0)
      && (forall h, k: nat :: k > order ==> IsBlock(b, h, k) == IsBlock(b0, h, k))
  {
    hide FreePages, Aligned, Buddy, RunHead, Run;
    HeadInRun(RunHead(page0, order0, order), order);
  }
}
