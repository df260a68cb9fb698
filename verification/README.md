# Memory chains: a verified model

This project models two programs that implement memory chains, and the allocator underneath them, and proves
what they promise.

* **The buddy allocator of the kernel** (`Linux/page_alloc.c`): free blocks as a canonical decomposition of the
  free pages, the free lists by order and migration type, splitting, merging, fallbacks, per-CPU page lists,
  watermarks and the counting of memory holes.
* **Zone counters** (`Linux/vmstat.c`): a zone counter with per-CPU differences, used with interrupts disabled
  and, as a state machine of interleaved steps, without.
* **The chain counters of the kernel** (`Linux/mchain.c`, `Linux/page-flags.h`, `Linux/swap.c`): each chain counts
  the references to its pages, and PageReferenced answers for the whole chain.
* **The hierarchical memory manager** (`HierarchicalMemoryManager/src`): a page table, frames, doubly linked chains
  over shared pages, a two-phase victim search with cached chain timestamps, and the block join workload.
* **The love clock** (`MemoryManagerSimulator`): a clock policy whose pages carry a love count.

What the source updates in place is a class here (`Zone`, `PageAllocator`, `ZoneCounter`, `ChainTable`,
`MemoryChain`, `Page`, `PageTable`, `Memory`, `HierarchicalMemoryManager`, `LoveClockReplacementPolicy`). Its methods
are proved against functions on values (`Blocks`, `FreeLists`, `Paging`, `Representatives`), and the theorems are
about those. `Valid()` is the invariant every method keeps. `dafny verify dfyconfig.toml` checks the whole project.

The main results:

1. The blocks of a zone are a function of the set of its free pages. Two histories of frees and allocations that
   leave the same pages free leave the same blocks, whatever the order in which they did it.
2. An allocation fails exactly if no suitable block is free, takes the block that the search order prescribes, and
   takes exactly one run of pages: the best fit of its type while there is one. Every page comes back with the type
   recorded for it. Freeing, draining and refilling keep every page in exactly one place, and
   `alloc_pages_exact` followed by `free_pages_exact` and a drain restores every block.
3. The watermark test answers yes although no allocation is possible in one case only, an empty zone and order 0,
   where a negative balance is compared as an unsigned number. With a lagging counter a margin decides.
4. Drift can hide a breached min watermark exactly if the differences the CPUs may hold exceed the distance of low
   and min. Where the kernel sets a drift mark the safe test never suffers from it. The pressure threshold helps only
   once enough CPUs have updated their difference after the switch, and a run shows that it does not before; in the
   end it helps if and only if low and min are at least one page per CPU apart.
5. However the steps of `mod_state` interleave, no update asked for is lost or counted twice.
6. No sequence of chain operations makes a chain counter negative or smaller than the number of referenced
   members, so one referenced page protects its whole chain. The counter is exact only under a stated guard, and
   PageReferenced answers yes without a referenced page exactly if the counter is too large.
7. The memory manager keeps pages, frames and chains consistent. Without chains it is LRU. A page linked to a chain
   comes back to it after evictions until it is moved or the chain is broken or released. The manager evicts the
   page that ought to be evicted as long as no chain was broken; after a break it need not, a run shows it, and an
   exact condition on the cached timestamps says when.
8. The block join costs exactly r + ceil(r / (c - 1)) * s page faults on a memory of c frames.

Where code and documentation disagree, the model follows the code. `report.tex:288-291` lets the local policy of a
chain choose the victim, while `evict()` ignores the policy and takes the oldest page of the chosen chain
(`HierarchicalMemoryManager.java:73-114`, `MemoryChain.java:403-421`). The comment at `Linux/vmstat.c:91-98` promises
that no drift breaches the min watermark, which `VmStat.SwitchKeepsMinIff` and `VmStat.PressureKeepsMinIff` qualify.
Five of the sample thresholds at `Linux/vmstat.c:125-142` are not what the code computes
(`VmStat.SampleThresholds`). `report.tex:587-594` promises that every page of a chain counts as the best of the chain,
which `Representatives.EffectiveIsLatestIff` qualifies.

## Model

| member | source | states |
|---|---|---|
| Bits.AlignedIsMaskTest | Linux/page_alloc.c:506-506 | a page index is aligned to an order exactly if masking it with 2^order - 1 gives 0 |
| Bits.XorIsOtherHalf | Linux/page_alloc.c:430-434 | flipping the order bit of an aligned index gives the other half of the pair, and the bitwise and of both gives the lower half |
| Bits.MaskedIndex | Linux/page_alloc.c:503-545 | computing buddies on the index within the largest block and adding the difference to the page gives the same buddies and parents as computing them on the whole index |
| Bits.Halves | Linux/page_alloc.c:515-518 | of the two halves of a pair exactly the lower one is aligned to the next order |
| Bits.Nested | Linux/page_alloc.c:464-468 | two overlapping aligned runs are nested |
| Blocks.BlockIffMaximalRun | Linux/page_alloc.c:464-488 | in a canonical zone the free blocks are exactly the maximal aligned runs of free pages |
| Blocks.CanonicalUnique | Linux/page_alloc.c:464-488 | two canonical zones with the same free pages have the same blocks |
| Blocks.CoalesceCanonical | Linux/page_alloc.c:489-550 | merging a freed run with its free buddies keeps the zone canonical and adds exactly the pages of the run |
| Blocks.SplitCanonical | Linux/page_alloc.c:747-762 | splitting a run down to its lower end keeps the zone canonical and frees exactly what is not handed out |
| Blocks.AllocateFreeRoundTrip | Linux/page_alloc.c:464-488 | allocating a run out of any block and freeing it again gives back the very same blocks |
| BlockCounts.FreePagesCount | Linux/page_alloc.c:489-550 | the sum over all orders of the number of blocks times 2^order is the number of free pages |
| FreeHistory.HistoryIndependence | Linux/page_alloc.c:464-488 | any two legal histories of frees and allocations that leave the same pages free leave the same blocks |
| FreeHistory.FreeOrderIrrelevant | Linux/page_alloc.c:489-550 | freeing the same runs in any two orders gives the same blocks |
| FreeLists.PushLinked | Linux/page_alloc.c:536-549 | linking a new head keeps every free block on exactly one list, that of its order and type |
| FreeLists.DeleteLinked | Linux/page_alloc.c:515-518 | unlinking a head keeps every other free block on exactly one list |
| FreeLists.MoveLinked | Linux/page_alloc.c:889-897 | moving a head to the list of another type keeps every free block on exactly one list |
| FreeLists.NrFreeIsTotalLength | Linux/page_alloc.c:549-549 | nr_free of an order is the length of its lists of all types together |
| FreeLists.NrFreeCountsPages | Linux/page_alloc.c:1499-1509 | nr_free summed with weights 2^order is the number of free pages |
| Zones.AvailableIffLists | Linux/page_alloc.c:1009-1033 | the type's own lists, its fallback lists and the reserve are all empty from the order on exactly if no block of that order or more and of a type other than isolate is free |
| Zones.FallbackReaches | Linux/page_alloc.c:847-852 | every other per-CPU type is reached by the fallback row of a type |
| Zones.ChoiceMeans | Linux/page_alloc.c:815-1033 | said of the blocks alone: the block taken is a smallest sufficient one of the type asked for; if there is none, a largest one of the other two per-CPU types; if there is none of these, a smallest sufficient one of the reserve |
| Zones.FallbackPrefers | Linux/page_alloc.c:847-852 | at the order chosen unmovable and reclaimable requests take a movable block only if there is none of each other's, and movable requests an unmovable block only if there is no reclaimable one |
| Migration.MoveStep | Linux/page_alloc.c:889-897 | moving one more block of the range keeps the closed form of all lists: the moved heads in decreasing order in front of the list they move to, each list otherwise without them |
| Migration.HeadsDownAre | Linux/page_alloc.c:871-900 | the closed form lists exactly the heads of the range, in decreasing order |
| Zones.Zone.constructor | Linux/page_alloc.c:3382-3389 | a new zone has empty lists, nr_free 0 and no free page |
| Zones.Zone.PageIsBuddyIffBlock | Linux/page_alloc.c:449-463 | the page test answers yes exactly for the head of a free block of that order |
| Zones.Zone.HigherBuddyFree | Linux/page_alloc.c:536-545 | the test for the tail of the list answers yes exactly if the block is the lower half of its pair and the pair's buddy is a free block |
| Zones.Zone.TailMeansMerge | Linux/page_alloc.c:529-545 | a freed block goes to the tail exactly if, were its buddy freed next, the pair would be merged further |
| Zones.Zone.FreeOnePage | Linux/page_alloc.c:489-550 | freeing a run merges it as far as its buddies are free; the lists lose the merged buddies and the result is last on its list if it is likely to merge and first if not; nothing else of the zone or of the memory map changes |
| Zones.Zone.Expand | Linux/page_alloc.c:747-762 | the upper halves of a run down to the requested order become free blocks at the head of their lists; nothing else changes |
| Zones.Zone.RmqueueSmallest | Linux/page_alloc.c:817-840 | fails exactly if all lists of the type from the order on are empty; otherwise takes the first block of the smallest such order, splits it, and leaves all other blocks and types |
| Zones.Zone.MoveFreepages | Linux/page_alloc.c:859-901 | exactly the blocks that begin in the range change type; on each list of the new type they come first, later ones before earlier ones, and all other blocks keep their places; nr_free stays, and the result is the number of their pages |
| Zones.Zone.MoveFreepagesBlock | Linux/page_alloc.c:903-922 | the same for the pageblock around a page, from the page on if the pageblock begins before the zone, and nothing if it crosses the zone's end |
| Zones.Zone.SetPageblockMigratetype | Linux/page_alloc.c:223-231 | one pageblock's type changes; grouping disabled makes it unmovable |
| Zones.Zone.ChangePageblockRange | Linux/page_alloc.c:924-933 | exactly the pageblocks of the run change type |
| Zones.Zone.RmqueueFallback | Linux/page_alloc.c:936-1002 | fails exactly if all fallback lists are empty; otherwise takes the first block of the largest order, of the first type in the fallback row, never of the reserve. Small blocks for requests that are not reclaimable leave all other blocks and pageblocks alone and are split on the lists of their old type; otherwise, or with grouping disabled, the blocks of the pageblock move to the requested type and the remainder is split there; pageblock types follow |
| Zones.Zone.Rmqueue | Linux/page_alloc.c:1009-1033 | fails, changing nothing, exactly if no suitable block is free; otherwise takes the best choice in the sense of ChoiceMeans, removes exactly one aligned run, and leaves lists, block types and pageblock types as the branch taken says |
| Zones.Zone.OwnTypeFirst | Linux/page_alloc.c:1009-1033 | while a sufficient block of the type asked for is free, the block comes off a list of that type, and no list of another type and no pageblock type changes |
| Zones.Zone.OwnTypeLasts | Linux/page_alloc.c:1040-1071 | the same of any number of single pages taken one after the other |
| Watermark.ZoneWatermarkOk | Linux/page_alloc.c:1488-1514 | the loop answers yes exactly if the order-0 balance exceeds mark and reserve, compared unsigned, and each order's remaining pages exceed the mark halved as often |
| Watermark.AdjustedMin | Linux/page_alloc.c:1496-1499 | a high priority caller needs half the mark, a harder one three quarters, and one that is both three eighths, each rounded up |
| Watermark.PlentyPasses | Linux/page_alloc.c:1488-1514 | the check passes where more than 2^order + 1 + mark + reserve pages are free in blocks of the order or more |
| Watermark.PassLeavesPages | Linux/page_alloc.c:1488-1514 | a pass means that more than 2^order + 1 + (mark / 2^order) pages are free in blocks of that order or more, unless the order is 0 and at most one page is free |
| Watermark.NegativeBalancePasses | Linux/page_alloc.c:1493-1499 | with no or one free page the order-0 balance is negative and passes as a huge unsigned number |
| Watermark.AvailableIffPages | Linux/page_alloc.c:1500-1509 | an allocation can succeed exactly if pages are left in blocks of the order or more |
| Watermark.PassMisleadsIff | Linux/page_alloc.c:1488-1514 | on exact counts a pass is wrong if and only if the order is 0, the zone is empty and the wrapped balance exceeds mark and reserve |
| Watermark.PassWithDrift | Linux/page_alloc.c:1516-1521 | a pass on a counter that may be too large by a drift still guarantees an allocation if the drift is within 2^order + 1 + (mark / 2^order), plus the reserve at order 0 |
| Watermark.MarginIsSharp | Linux/page_alloc.c:1516-1521 | with one page more of drift an empty zone passes |
| VmStat.DriftKeepsMinIff | Linux/vmstat.c:175-185 | with a bound on the difference of each CPU, drift can hide a breached min watermark, with a free count that is not negative, exactly if the bounds add up to more than the distance of low and min, and min is not 0 |
| VmStat.DriftMarkIff | Linux/vmstat.c:175-185 | a drift mark is set exactly where drift within the threshold could hide a breached min watermark, and lies above the high watermark by the largest drift |
| VmStat.PressureThreshold | Linux/vmstat.c:86-108 | the largest threshold up to 125 of which one per CPU fits between low and min, but at least 1 |
| VmStat.FlsHighestBit | Linux/vmstat.c:110-155 | the logarithm used for the normal threshold is the position of the highest bit |
| VmStat.SampleThresholds | Linux/vmstat.c:123-142 | the threshold at each sample of the comment; five of them differ from what the comment says |
| VmStat.SwitchKeepsMinIff | Linux/vmstat.c:188-206 | in a switch of thresholds the CPUs that have not updated since still hold back what the old one allowed: the min watermark is safe exactly if the updated CPUs times the new threshold plus the others times the old one fit between low and min, or min is 0 |
| VmStat.PressureBelowNormal | Linux/vmstat.c:175-206 | where a drift mark is set the pressure threshold is below the normal one, so no switch between the two takes a difference beyond the normal one, and right after the switch, before any update, the min watermark is not safe |
| VmStat.SwitchBreaches | Linux/vmstat.c:188-206 | a run of a counter of 4 CPUs after which every threshold is the pressure threshold, the counter shows the low watermark 1000 and 856 pages are free, below the min watermark 900 |
| VmStat.SafeCountKeepsMin | Linux/page_alloc.c:1523-1533 | the count that the safe test goes by never hides a breached min watermark while every difference is within the threshold behind the drift mark; where a drift mark is set and the count is not exact the zone has its high watermark; and the differences are added up only below a drift mark |
| VmStat.PressureKeepsMinIff | Linux/vmstat.c:86-108 | once every CPU has updated its difference after the switch, as every change of the free page counter does, the pressure threshold lets no drift hide a breached min watermark if and only if low and min are at least one page per CPU apart, or min is 0 |
| VmStat.ZoneCounter.ModZonePageState | Linux/vmstat.c:211-228 | the exact value changes by delta; the difference is folded into the zone counter exactly if it would leave the threshold, and afterwards obeys the threshold in force |
| VmStat.ZoneCounter.IncZoneState | Linux/vmstat.c:254-268 | the exact value grows by one; above the threshold the difference is folded with an overstep of half the threshold; a difference below a lowered threshold stays there |
| VmStat.ZoneCounter.DecZoneState | Linux/vmstat.c:276-290 | the exact value falls by one; below the threshold the difference is folded with an overstep of half the threshold; a difference above a lowered threshold stays there |
| VmStat.ZoneCounter.RefreshCpu | Linux/vmstat.c:434-460 | the CPU's difference goes to the zone counter and the exact value stays |
| VmStat.ZoneCounter.SetThresholds | Linux/vmstat.c:188-206 | every CPU gets the new threshold, and the counter stays valid whatever the differences are |
| VmStat.ZoneCounter.DriftBound | Linux/vmstat.c:211-228 | the zone counter is off by at most 125 per CPU |
| VmStat.ZoneCounter.CounterKeepsMin | Linux/vmstat.c:86-108 | a counter at the low watermark means that the min watermark is met while the bounds its differences obey fit between the two |
| ModStateRace.InvStep | Linux/vmstat.c:311-344 | every step of any task or interrupt on any CPU keeps: zone counter plus differences plus overflows under way equals the sum of the updates that took effect, and every difference fits a signed byte |
| ModStateRace.RequestStep | Linux/vmstat.c:311-344 | with every step the updates that took effect and those that tasks still owe grow together by exactly what the step asks for: a failed cmpxchg gives nothing up |
| ModStateRace.RequestKept | Linux/vmstat.c:311-344 | a task keeps the delta and the mode it was called with until its cmpxchg succeeds |
| ModStateRace.InvAlways | Linux/vmstat.c:311-344 | that holds in every state of every execution |
| ModStateRace.RequestsAlways | Linux/vmstat.c:311-344 | in every state of every execution what took effect and what is owed add up to the start value and all requests so far |
| ModStateRace.NoUpdateLost | Linux/vmstat.c:311-344 | whenever all tasks are idle the zone counter and the differences add up to the start value and every update asked for so far |
| ModStateRace.QuiescentDrift | Linux/vmstat.c:311-344 | whenever no overflow is under way the zone counter is off by at most 125 per CPU from the updates that took effect |
| ModStateRace.AloneIsMod | Linux/vmstat.c:346-350 | an uninterrupted mod_zone_page_state does what __mod_zone_page_state does, and so does an update in an interrupt |
| ModStateRace.AloneIsIncIff | Linux/vmstat.c:353-356 | an uninterrupted inc_zone_state does what __inc_zone_state does exactly if the difference was not left below a lowered threshold |
| ModStateRace.AloneIsDecIff | Linux/vmstat.c:364-368 | the same of decrements and the upper end |
| ModStateRace.FoldIsRefresh | Linux/vmstat.c:434-460 | a fold and the addition that follows move exactly one difference to the zone counter |
| PageSets.SetupBatchOk | Linux/page_alloc.c:3446-3476 | six batches fit under the first high mark; the batch for a new high mark is the largest one up to 8 pages per page shift of which four fit under it; both are at least 1 |
| RoundRobin.LeftBounds | Linux/page_alloc.c:595-625 | the round robin frees exactly the pages asked for and never more of a list than it has |
| RoundRobin.SharedEvenly | Linux/page_alloc.c:602-614 | as long as no list runs dry each of the three lists gives a third of the pages, rounded by its place in the round |
| RoundRobin.TwoToOne | Linux/page_alloc.c:602-614 | with one list empty the list after it gives two pages whenever the third gives one |
| RoundRobin.OrderIsTails | Linux/page_alloc.c:595-625 | the pages freed are exactly the tails that the lists give up |
| TypedFrees.LastFreed | Linux/page_alloc.c:614-625 | after any number of frees every block has the type of the page freed last among its pages, and a block that no freed page joined is as it was |
| PageSets.FreedComesBack | Linux/page_alloc.c:1213-1217 | a hot page freed is the next handed out to a hot request, a cold one to a cold request, and the lists are as before |
| PageSets.FreedStaysLongest | Linux/page_alloc.c:1213-1217 | a hot page freed is the last handed out to cold requests, and the other way round |
| PageSets.RefillOrder | Linux/page_alloc.c:1040-1071 | after a refill requests of one kind get the pages in the order in which they left the zone |
| PageSets.PageAllocator.SetHighmark | Linux/page_alloc.c:3466-3476 | a new high mark keeps the pages, the counts and every invariant |
| PageSets.PageAllocator.SetThresholds | Linux/vmstat.c:188-206 | new thresholds for the free page counter keep every invariant |
| PageSets.PageAllocator.FreePcppagesBulk | Linux/page_alloc.c:588-628 | exactly count pages move from the CPU's lists to the zone, in the order of the round robin, each with the type recorded for it; each list gives up a suffix, and the free page counter grows by count |
| PageSets.PageAllocator.FreeOneBlock | Linux/page_alloc.c:630-640 | a held run becomes idle and merges in the zone; the block that contains it has the type given, and all others keep theirs |
| PageSets.PageAllocator.DrainZonePages | Linux/page_alloc.c:1082-1095 | one CPU gives back at most a batch; no page is lost and no other CPU changes |
| PageSets.PageAllocator.DrainPages | Linux/page_alloc.c:1105-1124 | one CPU's lists end up empty; no page is lost and no other CPU changes |
| PageSets.PageAllocator.DrainAllPages | Linux/page_alloc.c:1137-1140 | no CPU holds a page and every idle page is free in the zone |
| PageSets.PageAllocator.FreeHotColdPage | Linux/page_alloc.c:1182-1228 | exactly the freed page becomes idle, recorded with the type of its pageblock: isolated pages merge in the zone with that type, others join the list of the type, reserve counting as movable, at the head if hot and at the tail if cold, and at the high mark a batch is given back with the types recorded; other CPUs are untouched |
| PageSets.PageAllocator.RmqueueBulk | Linux/page_alloc.c:1040-1071 | as many pages move to the CPU's list as the zone has, up to count, in order for hot and reversed for cold requests, each the page that __rmqueue hands out for the list's type in the state of the zone before it; idle pages and the counter's meaning stay |
| PageSets.PageAllocator.BufferedRmqueue | Linux/page_alloc.c:1309-1374 | fails exactly if neither the CPU's list nor the zone has a page; otherwise exactly one aligned run stops being idle: the first page of the list for a hot and the last for a cold request, the zone staying as it is; after a refill by the type asked for in both cases the page that came first out of the zone; larger runs as the zone serves them |
| PageSets.PageAllocator.FreePagesOp | Linux/page_alloc.c:687-702 | exactly the pages of a held run become idle; a larger run gets the type of its pageblock |
| PageSets.PageAllocator.SplitFreePage | Linux/page_alloc.c:1268-1301 | takes a whole free block exactly if the zone passes the watermark test above low plus the block, makes movable exactly the pageblocks it covers, a half pageblock its own, a single page none, and changes nothing otherwise |
| PageSets.PageAllocator.PassOnCounter | Linux/page_alloc.c:1516-1521 | in every reachable allocator a pass of the test on the lagging counter guarantees an allocation if 125 per CPU is within the margin of the mark |
| PageSets.PageAllocator.FreeCounterIsSum | Linux/page_alloc.c:588-628 | the exact free page counter is nr_free summed over the orders with weights 2^order |
| PageSets.PageAllocator.AllocPagesExact | Linux/page_alloc.c:2326-2344 | fails exactly if no run of the order of n is to be had; on success exactly n consecutive pages, aligned to that order, stop being idle, the run being the one served for the type asked for and its rest having been given back |
| PageSets.PageAllocator.FreePagesExact | Linux/page_alloc.c:2354-2363 | exactly the n pages become idle |
| PageSets.PageAllocator.DrainedBlocksUnique | Linux/page_alloc.c:1137-1140 | after draining, the zone's blocks are the only canonical ones with these idle pages |
| PageSets.PageAllocator.ExactRoundTrip | Linux/page_alloc.c:2326-2363 | allocating n pages on one CPU, freeing them on another and draining restores the zone's blocks, from any drained state |
| AbsentPages.NextRegionIndex | Linux/page_alloc.c:3622-3644 | finds the first region of the node from an index on, or that there is none |
| AbsentPages.CoveredByNode | Linux/page_alloc.c:3622-3644 | a node's own regions cover its frames, and the request for all nodes asks for the regions of every node |
| AbsentPages.AbsentPagesInRange | Linux/page_alloc.c:3955-3999 | counts exactly the page frames of the range that no region of the node covers, or 0 if the node has no region |
| AbsentPages.NoRegionMiscount | Linux/page_alloc.c:3968-3972 | that 0 is the true number of holes if and only if the range is empty |
| ChainCounter.ChainProtection | Linux/page-flags.h:487-503 | in a valid table no counter is negative, and PageReferenced holds for every member of a chain that has a referenced member |
| ChainCounter.PageReferencedIff | Linux/page-flags.h:487-503 | a linked page is referenced if and only if some page of its chain is or the counter is too large; an unlinked page answers for its own bit |
| ChainCounter.ExactReferencedIff | Linux/page-flags.h:487-503 | with an exact counter PageReferenced is the or of the bits of the chain |
| ChainCounter.ExactIff | Linux/page-flags.h:505-535 | a step keeps an exact counter exact if and only if it does not set a referenced member again, free a referenced member, or mark a member accessed while some member is unreferenced |
| ChainCounter.ChainTable.NewChain | Linux/mchain.c:71-88 | a new chain is empty with counter 0 |
| ChainCounter.ChainTable.SetPageReferenced | Linux/page-flags.h:505-512 | sets the bit and always counts it, even if it was set |
| ChainCounter.ChainTable.ClearPageReferenced | Linux/page-flags.h:514-521 | clears the bit and takes back one count if it was set |
| ChainCounter.ChainTable.TestClearPageReferenced | Linux/page-flags.h:523-535 | clears the bit and takes back its count; the answer for a linked page is yes if and only if some page of its chain was referenced or the counter was too large, for an unlinked page its own bit |
| ChainCounter.ChainTable.MarkPageAccessed | Linux/swap.c:285-306 | marks or activates the page and makes it its chain's delegate, with the counter at the number of links |
| ChainCounter.AccessLadder | Linux/swap.c:278-306 | an unlinked page climbs from unreferenced over referenced and active to active and referenced; a linked page is active after the first access |
| ChainCounter.ChainTable.Activate | Linux/swap.c:258-276 | the page becomes active and unreferenced, and no chain's excess changes |
| ChainCounter.ChainTable.FreePage | Linux/page_alloc.c:642-685 | a freed page is reset and leaves its chain, whose counter keeps its reference |
| ChainCounter.ChainTable.UnlinkPage | Linux/mchain.c:120-148 | the page leaves its chain with its reference, and as anchor and delegate; the other links keep their order, and no chain's excess changes |
| ChainCounter.ChainTable.LinkPage | Linux/mchain.c:154-193 | the page leaves its chain and joins the head of another with its reference; linking to its own chain does nothing |
| ChainCounter.ChainTable.UnlinkChain | Linux/mchain.c:529-555 | exactly the members are detached and unreferenced, and the chain is as new |
| ChainCounter.ChainTable.ReleaseChain | Linux/mchain.c:587-631 | the chain goes and its members are detached |
| ChainCounter.ChainTable.Step | Linux/mchain.c:90-193 | every operation keeps the table valid and changes each excess as ExactIff assumes |
| ChainCounter.ChainTable.Run | Linux/page-flags.h:487-535 | after any sequence of operations every counter is at least the number of referenced members, and a referenced member protects its whole chain |
| ChainCounter.CountedTwice | Linux/page-flags.h:505-512 | a run after which a counter is too large by one: the same page set referenced twice |
| ChainCounter.CountedLinks | Linux/swap.c:285-306 | a run after which a counter is too large by two: one of two unreferenced links is marked accessed |
| ChainCounter.FreedReferenced | Linux/page_alloc.c:642-685 | a run after which a counter is too large by one: a referenced page is freed |
| MemoryChains.MemoryChain.Unlink | HierarchicalMemoryManager/src/mem/MemoryChain.java:167-197 | relinking the neighbours removes exactly that page, and forgets it as representative and anchor; a page that resides nowhere is ignored |
| MemoryChains.MemoryChain.Link | HierarchicalMemoryManager/src/mem/MemoryChain.java:318-347 | the page comes first and may become the representative; a member is ignored |
| MemoryChains.MemoryChain.Anchor | HierarchicalMemoryManager/src/mem/MemoryChain.java:354-359 | links the page and makes it the anchor |
| MemoryChains.MemoryChain.Represent | HierarchicalMemoryManager/src/mem/MemoryChain.java:391-396 | a member with a later stamp becomes the representative; another page changes nothing |
| MemoryChains.MemoryChain.Unchain | HierarchicalMemoryManager/src/mem/MemoryChain.java:142-161 | returns the pages from head to tail and leaves each of them and the chain unlinked, but the chain's timestamp and representative stay |
| MemoryChains.MemoryChain.ScanEnds | HierarchicalMemoryManager/src/mem/MemoryChain.java:203-222 | the scan from both ends towards the middle has seen every page when it stops |
| MemoryChains.MemoryChain.Timestamp | HierarchicalMemoryManager/src/mem/MemoryChain.java:365-383 | returns the cached stamp, or finds the largest stamp of the members and caches it; asking again gives the same |
| MemoryChains.MemoryChain.Lru | HierarchicalMemoryManager/src/mem/MemoryChain.java:203-222 | a least recently used page apart from the anchor, or none if there is none |
| MemoryChains.MemoryChain.Mru | HierarchicalMemoryManager/src/mem/MemoryChain.java:228-247 | a most recently used page apart from the anchor, or none if there is none |
| MemoryChains.MemoryChain.Victim | HierarchicalMemoryManager/src/mem/MemoryChain.java:403-421 | the page with the smallest stamp, or none if the chain is empty |
| Frames.Memory.Store | HierarchicalMemoryManager/src/mem/Memory.java:26-38 | the frame holds the page, the bitmap and the page's frame number follow, and the page swapped out is returned |
| Frames.Memory.FreeFrame | HierarchicalMemoryManager/src/mem/Memory.java:58-64 | the lowest free frame, or -1 exactly if all frames are occupied |
| Paging.HitOk | HierarchicalMemoryManager/src/mem/HierarchicalMemoryManager.java:158-166 | a hit keeps every page in exactly the chain it resides in and all stamps distinct |
| Paging.MissOk | HierarchicalMemoryManager/src/mem/HierarchicalMemoryManager.java:133-157 | so does bringing in a page whose chain is alive, which goes back to the chain it was assigned to |
| Paging.EvictOk | HierarchicalMemoryManager/src/mem/HierarchicalMemoryManager.java:73-114 | so does evicting a page, and exactly that page stops being resident |
| Paging.MoveOk | HierarchicalMemoryManager/src/mem/HierarchicalMemoryManager.java:203-221 | so does linking a page to a user chain |
| Paging.HateOk | HierarchicalMemoryManager/src/mem/HierarchicalMemoryManager.java:248-262 | so does unlinking a page |
| Paging.HateAllIs | HierarchicalMemoryManager/src/mem/HierarchicalMemoryManager.java:268-274 | hating the pages of a chain one after the other puts them all, in reverse, before the hated pages |
| Paging.BreakOk | HierarchicalMemoryManager/src/mem/HierarchicalMemoryManager.java:268-274 | breaking a chain empties it, keeps all pages resident and lets only evicted pages stay assigned to it |
| Paging.ReleaseOk | HierarchicalMemoryManager/src/mem/HierarchicalMemoryManager.java:280-283 | releasing a chain keeps all resident pages in the remaining chains |
| Paging.ReleaseStrandsIff | HierarchicalMemoryManager/src/mem/HierarchicalMemoryManager.java:280-283 | a page loses the chain its next access looks up exactly if it is assigned to the released chain and not resident |
| Paging.HomesKept | HierarchicalMemoryManager/src/mem/HierarchicalMemoryManager.java:128-274 | no other operation takes any page's chain from it |
| Paging.ReleaseStrands | HierarchicalMemoryManager/src/mem/HierarchicalMemoryManager.java:147-153 | a state in which releasing a chain leaves an evicted page without the chain its next access looks up |
| HomeChains.ComesBack | HierarchicalMemoryManager/src/mem/HierarchicalMemoryManager.java:128-221 | after link, and any operations that do not move or unlink the page or break or release the chain, the page is in the chain while resident, and if it was evicted its next access puts it at the head of the chain |
| HomeChains.HateBinds | HierarchicalMemoryManager/src/mem/HierarchicalMemoryManager.java:248-262 | an unlinked page comes back to the standard chain, and is the last hated page |
| HomeChains.BreakBinds | HierarchicalMemoryManager/src/mem/HierarchicalMemoryManager.java:268-274 | so does every page of a broken chain, all of which are hated |
| HomeChains.Returns | HierarchicalMemoryManager/src/mem/HierarchicalMemoryManager.java:147-153 | a run of a manager of one frame: page 7 is linked to chain 3, evicted for page 8, and back in chain 3 after its next access |
| HomeChains.Strands | HierarchicalMemoryManager/src/mem/HierarchicalMemoryManager.java:280-283 | the same run, but with chain 3 released while page 7 is away: the chain that page 7 would come back to is gone |
| Paging.ChainsPartition | HierarchicalMemoryManager/src/mem/HierarchicalMemoryManager.java:17-41 | the chains partition the resident pages, and their lengths add up to the number of resident pages |
| Representatives.MarksUnlink | HierarchicalMemoryManager/src/mem/MemoryChain.java:167-197 | unlinking keeps: a chain's timestamp is at least that of every member, and its representative's stamp is the timestamp while it is a member |
| Representatives.MarksLink | HierarchicalMemoryManager/src/mem/MemoryChain.java:318-347 | linking keeps it too |
| Representatives.EffectiveIsLatestIff | HierarchicalMemoryManager/src/mem/MemoryChain.java:365-396 | a chain's timestamp is the latest use of its members if and only if it has no representative or the representative is still a member; it is never earlier |
| Representatives.ChosenIsOptimal | HierarchicalMemoryManager/src/mem/HierarchicalMemoryManager.java:73-114 | as long as no chain was broken the page evicted is an optimal victim: hated first, else spilled, else the oldest page of the chain least recently used as a whole |
| VictimChoice.OptimalIff | HierarchicalMemoryManager/src/mem/HierarchicalMemoryManager.java:73-114 | whatever happened before, every page that evict may choose is optimal if and only if hated or spilled pages decide, or no chain or page has a cached timestamp that is not later than that of the least recently used one |
| VictimChoice.DistinctPriorities | HierarchicalMemoryManager/src/mem/MemoryChain.java:365-383 | two chains, or pages of system chains, are never equally recent, so the least recently used one is unique |
| Representatives.ChosenIsResident | HierarchicalMemoryManager/src/mem/HierarchicalMemoryManager.java:73-114 | the victim is resident and in a chain |
| MemoryManager.HierarchicalMemoryManager.constructor | HierarchicalMemoryManager/src/mem/HierarchicalMemoryManager.java:33-41 | a new manager has the three system chains, no user chain and no resident page |
| MemoryManager.HierarchicalMemoryManager.Evict | HierarchicalMemoryManager/src/mem/HierarchicalMemoryManager.java:73-114 | the chosen victim leaves its chain, its frame and the page table, nothing else changes, and of the cached timestamps exactly those of the user chains that were asked are filled in |
| MemoryManager.HierarchicalMemoryManager.Access | HierarchicalMemoryManager/src/mem/HierarchicalMemoryManager.java:128-167 | a hit refreshes the page; a miss evicts the chosen victim exactly if memory is full, and brings the page in with one miss more; every chain's cached timestamp afterwards is stated; heap, page table and chains agree with the value |
| MemoryManager.HierarchicalMemoryManager.Link | HierarchicalMemoryManager/src/mem/HierarchicalMemoryManager.java:203-221 | the page moves to the head of the user chain and is assigned to it, with what HomeChains.ComesBack says; only the marks of the two chains change, as stated |
| MemoryManager.HierarchicalMemoryManager.Anchor | HierarchicalMemoryManager/src/mem/HierarchicalMemoryManager.java:227-242 | the same, and the page becomes the chain's anchor |
| MemoryManager.HierarchicalMemoryManager.Unlink | HierarchicalMemoryManager/src/mem/HierarchicalMemoryManager.java:248-262 | a resident page moves to the hated chain unless it is there, and its chain forgets it as representative; a page that is not resident changes nothing |
| MemoryManager.HierarchicalMemoryManager.CreateMemoryChain | HierarchicalMemoryManager/src/mem/HierarchicalMemoryManager.java:173-178 | a new empty user chain with an unused number |
| MemoryManager.HierarchicalMemoryManager.BreakMemoryChain | HierarchicalMemoryManager/src/mem/HierarchicalMemoryManager.java:268-274 | all members become hated and the marks of the other user chains stay |
| MemoryManager.HierarchicalMemoryManager.ReleaseMemoryChain | HierarchicalMemoryManager/src/mem/HierarchicalMemoryManager.java:280-283 | the chain is broken and removed, the marks of the other user chains stay |
| MemoryManager.HierarchicalMemoryManager.FramesPartition | HierarchicalMemoryManager/src/mem/HierarchicalMemoryManager.java:128-167 | in every valid manager page table and occupied frames are inverse to each other, and the chains partition exactly the pages in the table |
| LruCache.EvictRefines | HierarchicalMemoryManager/src/mem/HierarchicalMemoryManager.java:73-114 | without user chains the victim is the last page of the recency list |
| LruCache.AccessRefines | HierarchicalMemoryManager/src/mem/HierarchicalMemoryManager.java:128-167 | without user chains one access is one step of an LRU list of the memory's size |
| LruCache.AccessAll | HierarchicalMemoryManager/src/mem/HierarchicalMemoryManager.java:128-167 | for every sequence of addresses the pages resident in a new manager afterwards are those of the LRU list, in its order of recency |
| BlockJoin.AccessFaults | HierarchicalMemoryManager/src/mem/HierarchicalMemoryManager.java:73-167 | during a join a fault in full memory evicts the last hated page and never a linked one, and costs one miss |
| BlockJoin.LoadStep | HierarchicalMemoryManager/src/sim/AccessPatterns.java:34-38 | loading and linking one block of R keeps the invariant of the pass and costs one miss |
| BlockJoin.VisitStep | HierarchicalMemoryManager/src/sim/AccessPatterns.java:40-49 | visiting one block of S, comparing and unlinking it keeps the invariant and costs one miss: none of the blocks still to come is resident |
| BlockJoin.PassEnds | HierarchicalMemoryManager/src/sim/AccessPatterns.java:52-53 | breaking the chain restores the invariant with which a pass begins |
| BlockJoin.JoinPass | HierarchicalMemoryManager/src/sim/AccessPatterns.java:30-54 | a pass over n blocks of R costs n + s misses, n being c - 1 or what is left |
| BlockJoin.TraceBlockJoin | HierarchicalMemoryManager/src/sim/AccessPatterns.java:22-57 | the whole join on a new manager of c >= 2 frames costs exactly r + ((r + c - 2) / (c - 1)) * s misses |
| StaleChain.UseAndBreak | HierarchicalMemoryManager/src/mem/MemoryChain.java:142-161 | access 1, 3, 2, link 2 to a chain and break the chain: the empty chain keeps page 2 as representative |
| StaleChain.Spared | HierarchicalMemoryManager/src/mem/MemoryChain.java:365-383 | in the state that follows the only page evict can choose is not an optimal victim, and the cached timestamps mislead in the sense of OptimalIff |
| StaleChain.StaleChain | HierarchicalMemoryManager/src/mem/HierarchicalMemoryManager.java:73-114 | a run of a new manager of three frames reaches that state |
| LoveClock.LoveClockReplacementPolicy.FindPageToEvict | MemoryManagerSimulator/src/mmu/policy/LoveClockReplacementPolicy.java:13-28 | given a page of non-negative love, it takes the page that is first by cost, then by distance from the hand, after exactly cost * n + distance advances, leaves every page as often passed as that says, and the clock as that many turns leave it |
| LoveClock.FirstVictimUnique | MemoryManagerSimulator/src/mmu/policy/LoveClockReplacementPolicy.java:13-28 | there is only one such page |
| LoveClock.LoveClockReplacementPolicy.Advance | MemoryManagerSimulator/src/mmu/policy/LoveClockReplacementPolicy.java:17-26 | the else branch is one turn of the clock as a value, the one that VictimIff iterates |
| LoveClock.VictimIff | MemoryManagerSimulator/src/mmu/policy/LoveClockReplacementPolicy.java:14-27 | the search ends if and only if some page has non-negative love |
| LoveClock.UnlovedForEver | MemoryManagerSimulator/src/mmu/policy/LoveClockReplacementPolicy.java:42-45 | one page given love -1 keeps the search going for ever |

## Left out

- MemoryManager.HierarchicalMemoryManager.Access: requires that the chain of a page that is not resident still exists, because the source throws otherwise, in the middle of the access; Paging.ReleaseStrandsIff says which release takes it away.
- MemoryManager.HierarchicalMemoryManager.Link: requires a resident page, as Anchor does; the source throws for any other, because the lookup gives frame -1.
- MemoryManager.HierarchicalMemoryManager.BreakMemoryChain: does not promise that the chains' timestamps stay true, because they do not; StaleChain.StaleChain shows it.
- LoveClock.LoveClockReplacementPolicy.FindPageToEvict: requires a page of non-negative love, without which it does not return (LoveClock.VictimIff).
- AbsentPages.AbsentPagesInRange: requires the node's regions to be sorted and disjoint, as the callers have arranged.
- Watermark.ZoneWatermarkOk: requires the sums to fit a machine word, whose width is a parameter; only the conversion to unsigned is modelled.
- VmStat.ZoneCounter.ModZonePageState: the zone counter is unbounded; that the differences fit a signed byte is proved.
- PageSets.PageAllocator.RmqueueBulk: only for order 0, the only order it is called with.
- Locks, interrupts and preemption, except in ModStateRace: operations on zones, page lists and chains are atomic steps.
- Compound pages, bad page checks, page preparation that fails, highmem, NUMA zone lists, the global totals, and the tests that skip a zone without a drift mark (`Linux/vmstat.c:199-200`).
- Boot-time set-up of zones and nodes beyond the free lists, and the sysctl interface.
- System calls, slot tables and walks over page ranges in `Linux/mchain.c`: the chains are a map from numbers, and one call links one page.
- Bounded chains, their local eviction and the spilling of pages: no chain of the simulated manager is ever bounded, so `link` returns no victim there.
- The printed statistics, eviction counts, the random policy and the replacement of a chain by its policy.
- The order in which a hash map yields its chains: wherever it matters any order is allowed.
- The index join and matrix workloads, and the other policies of MemoryManagerSimulator.
- Overflow of the logical clock.
