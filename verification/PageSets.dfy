/** The per-CPU page lists in front of the buddy allocator, with the lazily folded free page
    counter (Linux/page_alloc.c). */
module PageSets {
  import opened Bits
  import opened Blocks
  import opened BlockCounts
  import opened FreeLists
  import opened Integers
  import opened Options
  import opened RoundRobin
  import opened Sequences
  import opened TypedFrees
  import opened VmStat
  import opened Watermark
  import opened Zones

  /** struct per_cpu_pages. */
  datatype PerCpuPages = PerCpuPages(count: int, high: int, batch: int, lists: seq<seq<nat>>)

  /** setup_pageset. */
  function SetupPageset(batch: nat): PerCpuPages {
    PerCpuPages(0, 6 * batch, Max(1, batch), [[], [], []])
  }

  /** setup_pagelist_highmark; pageShift is PAGE_SHIFT. */
  function SetupHighmark(p: PerCpuPages, high: nat, pageShift: nat): PerCpuPages {
    p.(high := high, batch := if high / 4 > pageShift * 8 then pageShift * 8 else Max(1, high / 4))
  }

  /** A batch never exceeds what the lists hold when the high mark is reached. */
  predicate BatchOk(p: PerCpuPages) {
    1 <= p.batch <= Max(1, p.high)
  }

  lemma SetupBatchOk(batch: nat, p: PerCpuPages, high: nat, pageShift: nat)
    requires pageShift > 0
    ensures BatchOk(SetupPageset(batch)) && BatchOk(SetupHighmark(p, high, pageShift))
    // six batches fit under the high mark
    ensures var q := SetupPageset(batch); Total(q) == q.count == 0 && (batch > 0 ==> q.high == 6 * q.batch && q.batch == batch)
    // the batch is the largest one up to pageShift * 8 of which four fit under the high mark, and at least 1
    ensures var q := SetupHighmark(p, high, pageShift);
      && q.high == high && 1 <= q.batch <= pageShift * 8
      && (q.batch > 1 ==> 4 * q.batch <= high) && (q.batch < pageShift * 8 ==> 4 * (q.batch + 1) > high)
  {
  }

  lemma HighmarkKeeps(p: PerCpuPages, high: nat, pageShift: nat)
    ensures var q := SetupHighmark(p, high, pageShift); q.lists == p.lists && q.count == p.count
  {
  }

  function Total(p: PerCpuPages): nat
    requires |p.lists| == MIGRATE_PCPTYPES
  {
    |p.lists[0]| + |p.lists[1]| + |p.lists[2]|
  }

  function Lengths(p: PerCpuPages): (r: seq<nat>)
    requires |p.lists| == MIGRATE_PCPTYPES
    ensures |r| == 3 && Size(r) == Total(p) && r[0] == |p.lists[0]| && r[1] == |p.lists[1]| && r[2] == |p.lists[2]|
  {
    [|p.lists[0]|, |p.lists[1]|, |p.lists[2]|]
  }

  /** A page recorded as priv may be on list t. */
  predicate RecordFits(priv: nat, t: nat) {
    priv < MIGRATE_TYPES && (priv == t || (t == MIGRATE_MOVABLE && priv == MIGRATE_RESERVE))
  }

  predicate PcpShaped(pcp: seq<PerCpuPages>) {
    forall c :: 0 <= c < |pcp| ==> |pcp[c].lists| == MIGRATE_PCPTYPES && BatchOk(pcp[c])
  }

  /** pcp.count of every CPU is the total length of its lists. */
  predicate CountsRight(pcp: seq<PerCpuPages>)
    requires PcpShaped(pcp)
  {
    forall c :: 0 <= c < |pcp| ==> pcp[c].count == Total(pcp[c])
  }

  /** Every listed page is linked once: on one list of one CPU. */
  ghost predicate PcpLinked(pcp: seq<PerCpuPages>, owner: map<nat, (nat, nat)>)
    requires PcpShaped(pcp)
  {
    && (forall c: nat, t: nat :: c < |pcp| && t < MIGRATE_PCPTYPES ==> Distinct(pcp[c].lists[t]))
    && (forall c: nat, t: nat, p: nat {:trigger p in pcp[c].lists[t]} {:trigger owner[p], pcp[c].lists[t]} ::
          c < |pcp| && t < MIGRATE_PCPTYPES ==> (p in pcp[c].lists[t] <==> p in owner && owner[p] == (c, t)))
    && (forall p :: p in owner ==> owner[p].0 < |pcp| && owner[p].1 < MIGRATE_PCPTYPES)
  }

  function SetPcpList(pcp: seq<PerCpuPages>, c: nat, t: nat, l: seq<nat>): (r: seq<PerCpuPages>)
    requires PcpShaped(pcp) && c < |pcp| && t < MIGRATE_PCPTYPES
    ensures |r| == |pcp| && PcpShaped(r)
    ensures r[c] == pcp[c].(lists := pcp[c].lists[t := l])
    ensures forall k :: 0 <= k < |pcp| && k != c ==> r[k] == pcp[k]
    ensures Total(r[c]) == Total(pcp[c]) - |pcp[c].lists[t]| + |l|
  {
    pcp[c := pcp[c].(lists := pcp[c].lists[t := l])]
  }

  function AddCount(pcp: seq<PerCpuPages>, c: nat, d: int): (r: seq<PerCpuPages>)
    requires PcpShaped(pcp) && c < |pcp|
    ensures |r| == |pcp| && PcpShaped(r) && Total(r[c]) == Total(pcp[c])
    ensures r[c] == pcp[c].(count := pcp[c].count + d)
    ensures forall k :: 0 <= k < |pcp| && k != c ==> r[k] == pcp[k]
  {
    pcp[c := pcp[c].(count := pcp[c].count + d)]
  }

  lemma AddCountLinked(pcp: seq<PerCpuPages>, owner: map<nat, (nat, nat)>, c: nat, d: int)
    requires PcpShaped(pcp) && PcpLinked(pcp, owner) && c < |pcp|
    ensures PcpLinked(AddCount(pcp, c, d), owner)
  {
    var r := AddCount(pcp, c, d);
    assert forall k :: 0 <= k < |pcp| ==> r[k].lists == pcp[k].lists;
  }

  lemma InsertDistinct(l: seq<nat>, p: nat, i: nat)
    requires Distinct(l) && p !in l && i <= |l|
    ensures Distinct(l[..i] + [p] + l[i..]) && forall x :: x in l[..i] + [p] + l[i..] <==> x == p || x in l
  {
    assert l == l[..i] + l[i..];
  }

  /** Replacing one list by l', which links p (or no longer does), as owner' records. */
  lemma SetListLinked(pcp: seq<PerCpuPages>, owner: map<nat, (nat, nat)>, c: nat, t: nat, p: nat, l': seq<nat>,
                      owner': map<nat, (nat, nat)>)
    requires PcpShaped(pcp) && PcpLinked(pcp, owner) && c < |pcp| && t < MIGRATE_PCPTYPES && Distinct(l')
    requires forall x :: x != p ==> (x in l' <==> x in pcp[c].lists[t]) && (x in owner' <==> x in owner)
    requires forall x :: x != p && x in owner ==> owner'[x] == owner[x]
    requires p in l' <==> p in owner'
    requires p in owner' ==> p !in owner && owner'[p] == (c, t)
    requires p in owner ==> owner[p] == (c, t)
    ensures PcpLinked(SetPcpList(pcp, c, t, l'), owner')
  {
    hide Distinct, Total, BatchOk;
    var pcp' := SetPcpList(pcp, c, t, l');
    forall c': nat, t': nat | c' < |pcp| && t' < MIGRATE_PCPTYPES && (c' != c || t' != t)
      ensures pcp'[c'].lists[t'] == pcp[c'].lists[t']
    {
    }
  }

  /** Inserting a page at position i of one list. */
  lemma InsertLinked(pcp: seq<PerCpuPages>, owner: map<nat, (nat, nat)>, c: nat, t: nat, p: nat, i: nat)
    requires PcpShaped(pcp) && PcpLinked(pcp, owner) && c < |pcp| && t < MIGRATE_PCPTYPES
    requires p !in owner && i <= |pcp[c].lists[t]|
    ensures var l := pcp[c].lists[t];
      PcpLinked(SetPcpList(pcp, c, t, l[..i] + [p] + l[i..]), owner[p := (c, t)])
  {
    hide Distinct, Total, BatchOk, SetPcpList;
    var l := pcp[c].lists[t];
    assert p !in l;
    InsertDistinct(l, p, i);
    SetListLinked(pcp, owner, c, t, p, l[..i] + [p] + l[i..], owner[p := (c, t)]);
  }

  /** Removing the page at position i of one list. */
  lemma RemoveLinked(pcp: seq<PerCpuPages>, owner: map<nat, (nat, nat)>, c: nat, t: nat, i: nat)
    requires PcpShaped(pcp) && PcpLinked(pcp, owner) && c < |pcp| && t < MIGRATE_PCPTYPES
    requires i < |pcp[c].lists[t]|
    ensures var l := pcp[c].lists[t];
      l[i] in owner && PcpLinked(SetPcpList(pcp, c, t, l[..i] + l[i + 1..]), owner - {l[i]})
  {
    hide Distinct, Total, BatchOk, SetPcpList;
    var l := pcp[c].lists[t];
    assert l[i] in l;
    CutElements(l, i);
    assert Cut(l, i) == l[..i] + l[i + 1..];
    SetListLinked(pcp, owner, c, t, l[i], l[..i] + l[i + 1..], owner - {l[i]});
  }

  lemma NonEmptyList(p: PerCpuPages)
    requires |p.lists| == MIGRATE_PCPTYPES && Total(p) > 0
    ensures p.lists[0] != [] || p.lists[1] != [] || p.lists[2] != []
  {
  }

  /** One zone together with the per-CPU lists and the free page counter in front of it. */
  class PageAllocator {
    const zone: Zone
    const stat: ZoneCounter                    // NR_FREE_PAGES
    var pcp: seq<PerCpuPages>                  // zone->pageset, per CPU
    ghost var owner: map<nat, (nat, nat)>      // page on a per-CPU list -> (CPU, list)

    /** setup_zone_pageset over a zone that holds no free page yet. */
    constructor (zone: Zone, cpus: nat, batch: nat)
      requires zone.Valid() && zone.Balanced() && zone.blocks == map[]
      ensures this.zone == zone && fresh(stat) && |pcp| == cpus && Valid() && Idle() == {}
    {
      this.zone := zone;
      stat := new ZoneCounter(cpus);
      pcp := seq(cpus, _ => SetupPageset(batch));
      owner := map[];
    }

    /** Everything but pcp.count and the free page counter, which lag inside the bulk operations. */
    ghost predicate Core()
      reads this, zone, zone.memMap, zone.blockType, stat
    {
      && zone.Geometry() && zone.Valid() && zone.Balanced()
      && stat.Valid() && |stat.diff| == |pcp|
      && PcpShaped(pcp) && PcpLinked(pcp, owner)
      && owner.Keys <= zone.ZonePages() && owner.Keys !! FreePages(zone.blocks)
      && PrivTyped()
    }

    /** page_private of every page on a per-CPU list is the migrate type it will be freed with: that of the
        list, or RESERVE on the list of movable pages. */
    ghost predicate PrivTyped()
      reads `owner, zone.memMap
    {
      forall p {:trigger p in owner} :: p in owner ==> p < zone.memMap.Length && RecordFits(zone.memMap[p].priv, owner[p].1)
    }

    /** The types recorded for the pages on per-CPU lists. */
    ghost function Records(): map<nat, nat>
      requires PrivTyped()
      reads `owner, zone.memMap
    {
      map p | p in owner :: zone.memMap[p].priv
    }

    /** The free blocks and their types. */
    ghost function Blocks(): Store
      reads zone`blocks, zone`typ
    {
      Store(zone.blocks, zone.typ)
    }

    /** Blocks and types are what freeing those pages makes of z0, and the pages still listed keep their record. */
    ghost predicate Typed(z0: Store, freed: seq<nat>, record: map<nat, nat>)
      reads `owner, zone`blocks, zone`typ, zone.memMap
    {
      && Blocks() == FreeAll(z0, freed, record, zone.maxOrder)
      && forall p :: p in owner ==> p in record && p < zone.memMap.Length && zone.memMap[p].priv == record[p]
    }

    /** The exact counter is the number of pages in the buddy system. */
    ghost predicate Accounted()
      reads this, zone, stat
    {
      stat.Exact() == |FreePages(zone.blocks)|
    }

    ghost predicate Valid()
      reads this, zone, zone.memMap, zone.blockType, stat
    {
      Core() && CountsRight(pcp) && Accounted()
    }

    /** Pages the allocator can still hand out: in the buddy system or on a per-CPU list. */
    ghost function Idle(): set<nat>
      reads this, zone
    {
      FreePages(zone.blocks) + owner.Keys
    }

    /** Pages of the zone that are handed out. */
    ghost function Held(): set<nat>
      requires zone.Geometry()
      reads this, zone
    {
      zone.ZonePages() - Idle()
    }

    /** Take the last page of a per-CPU list and free it into the buddy system. */
    method FreeTail(cpu: nat, t: nat)
      requires Core() && cpu < |pcp| && t < MIGRATE_PCPTYPES && pcp[cpu].lists[t] != []
      modifies `pcp, `owner, zone`freeArea, zone`blocks, zone`typ, zone.memMap
      ensures Core()
      ensures var l := old(pcp)[cpu].lists[t];
        && PcpShaped(old(pcp)) && pcp == SetPcpList(old(pcp), cpu, t, l[..|l| - 1])
        && l[|l| - 1] in old(owner) && owner == old(owner) - {l[|l| - 1]}
        && FreePages(zone.blocks) == old(FreePages(zone.blocks)) + {l[|l| - 1]}
        && l[|l| - 1] < zone.memMap.Length
        && Blocks() == FreeTyped(old(Blocks()), l[|l| - 1], 0, old(zone.memMap[l[|l| - 1]].priv), zone.maxOrder)
      ensures forall p :: p in owner ==> p < zone.memMap.Length && zone.memMap[p] == old(zone.memMap[p])
    {
      hide FreePages, Run, Canonical, Linked, Counted, Coalesce, PcpLinked, ListsAfterFree, Aligned, RunHead, FreeTyped;
      var l := pcp[cpu].lists[t];
      var page := l[|l| - 1];
      RemoveLinked(pcp, owner, cpu, t, |l| - 1);
      assert l[..|l| - 1] + l[|l|..] == l[..|l| - 1];
      SinglePage(page);
      pcp := SetPcpList(pcp, cpu, t, l[..|l| - 1]);
      owner := owner - {page};
      ghost var z, mt := Blocks(), zone.memMap[page].priv;
      ghost var head, top;
      head, top := zone.FreeOnePage(page, 0, zone.memMap[page].priv);
      FreedIs(z, Blocks(), page, 0, mt, zone.maxOrder, head, top);
    }

    /** FreeTail as one step of a drain. */
    method DrainOne(cpu: nat, t: nat, ghost pcp0: seq<PerCpuPages>, ghost owner0: map<nat, (nat, nat)>,
                    ghost free0: set<nat>, ghost n: nat, ghost z0: Store, ghost freed: seq<nat>, ghost record: map<nat, nat>)
      requires Core() && t < MIGRATE_PCPTYPES && PcpShaped(pcp0) && free0 !! owner0.Keys && Typed(z0, freed, record)
      requires Drained(pcp0, owner0, free0, pcp, owner, FreePages(zone.blocks), cpu, n)
      requires cpu < |pcp| && pcp[cpu].lists[t] != []
      modifies `pcp, `owner, zone`freeArea, zone`blocks, zone`typ, zone.memMap
      ensures Core() && |pcp| == old(|pcp|)
      ensures Drained(pcp0, owner0, free0, pcp, owner, FreePages(zone.blocks), cpu, n + 1)
      ensures PcpShaped(old(pcp)) && Lengths(pcp[cpu]) == Lengths(old(pcp)[cpu])[t := |old(pcp)[cpu].lists[t]| - 1]
      ensures var l := old(pcp)[cpu].lists[t];
        Typed(z0, freed + [l[|l| - 1]], record) && pcp[cpu].lists == old(pcp)[cpu].lists[t := l[..|l| - 1]]
    {
      hide FreePages, PcpLinked, Canonical, Linked, Counted, Drained, Total, FreeTyped, FreeAll;
      TailOwned(cpu, t);
      FreeAllNext(z0, freed, pcp[cpu].lists[t][|pcp[cpu].lists[t]| - 1], record, zone.maxOrder);
      DrainStep(pcp0, owner0, free0, pcp, owner, FreePages(zone.blocks), cpu, n, t);
      FreeTail(cpu, t);
    }

    /** The search of free_pcppages_bulk for the next list that has a page. */
    method NextList(cpu: nat, migratetype0: nat, batchFree0: nat) returns (migratetype: nat, batchFree: nat)
      requires PcpShaped(pcp) && cpu < |pcp| && Total(pcp[cpu]) > 0 && migratetype0 < MIGRATE_PCPTYPES
      ensures migratetype < MIGRATE_PCPTYPES && pcp[cpu].lists[migratetype] != []
      ensures var k := Ahead(Lengths(pcp[cpu]), migratetype0); migratetype == Ring(migratetype0, k) && batchFree == batchFree0 + k
    {
      NonEmptyList(pcp[cpu]);
      batchFree := batchFree0 + 1;
      migratetype := if migratetype0 + 1 == MIGRATE_PCPTYPES then 0 else migratetype0 + 1;
      while pcp[cpu].lists[migratetype] == []
        invariant batchFree0 + 1 <= batchFree <= batchFree0 + MIGRATE_PCPTYPES
        invariant migratetype == Ring(migratetype0, batchFree - batchFree0)
        invariant batchFree >= batchFree0 + 2 ==> pcp[cpu].lists[Ring(migratetype0, 1)] == []
        invariant batchFree >= batchFree0 + 3 ==> pcp[cpu].lists[Ring(migratetype0, 2)] == []
        decreases batchFree0 + MIGRATE_PCPTYPES - batchFree
      {
        batchFree := batchFree + 1;
        migratetype := if migratetype + 1 == MIGRATE_PCPTYPES then 0 else migratetype + 1;
      }
    }

    /** The inner loop of free_pcppages_bulk: up to batchFree0 pages off one list. */
    method DrainList(cpu: nat, t: nat, toFree0: nat, batchFree0: nat, ghost pcp0: seq<PerCpuPages>,
                     ghost owner0: map<nat, (nat, nat)>, ghost free0: set<nat>, ghost count: nat,
                     ghost z0: Store, ghost freed: seq<nat>, ghost record: map<nat, nat>)
      returns (toFree: nat, batchFree: nat)
      requires Core() && t < MIGRATE_PCPTYPES && PcpShaped(pcp0) && free0 !! owner0.Keys
      requires 0 < toFree0 <= count && batchFree0 >= 1
      requires Drained(pcp0, owner0, free0, pcp, owner, FreePages(zone.blocks), cpu, count - toFree0)
      requires cpu < |pcp| && pcp[cpu].lists[t] != [] && Typed(z0, freed, record)
      modifies `pcp, `owner, zone`freeArea, zone`blocks, zone`typ, zone.memMap
      ensures Core() && |pcp| == old(|pcp|) && toFree < toFree0 && PcpShaped(old(pcp))
      ensures var l := old(pcp)[cpu].lists[t];
        var n := Given(|l|, batchFree0, toFree0);
        pcp[cpu].lists == old(pcp)[cpu].lists[t := l[..|l| - n]] && Typed(z0, freed + Tail(l, n), record)
      ensures Drained(pcp0, owner0, free0, pcp, owner, FreePages(zone.blocks), cpu, count - toFree)
      ensures var l := Lengths(old(pcp)[cpu]);
        var n := Given(l[t], batchFree0, toFree0);
        toFree == toFree0 - n && Lengths(pcp[cpu]) == l[t := l[t] - n] && (toFree > 0 ==> batchFree == batchFree0 - n)
    {
      hide FreePages, PcpLinked, Drained, Total, Zone.Valid, Zone.Balanced, Zone.ZonePages, Typed, Tail;
      toFree, batchFree := toFree0, batchFree0;
      ghost var l := pcp[cpu].lists[t];
      TailNext(l, 0);
      NoneCut(pcp[cpu].lists, t);
      assert freed + Tail(l, 0) == freed;
      while true
        invariant Core() && |pcp| == old(|pcp|) && 0 < toFree <= toFree0 && batchFree == batchFree0 - (toFree0 - toFree) >= 1
        invariant pcp[cpu].lists[t] != [] && PcpShaped(old(pcp)) && toFree0 - toFree < |old(pcp)[cpu].lists[t]|
        invariant Lengths(pcp[cpu]) == Lengths(old(pcp)[cpu])[t := |old(pcp)[cpu].lists[t]| - (toFree0 - toFree)]
        invariant pcp[cpu].lists == old(pcp)[cpu].lists[t := l[..|l| - (toFree0 - toFree)]]
        invariant Typed(z0, freed + Tail(l, toFree0 - toFree), record)
        invariant Drained(pcp0, owner0, free0, pcp, owner, FreePages(zone.blocks), cpu, count - toFree)
        decreases toFree
      {
        TailNext(l, toFree0 - toFree);
        OneCut(old(pcp)[cpu].lists, t, toFree0 - toFree);
        assert freed + Tail(l, toFree0 - toFree) + [l[|l| - (toFree0 - toFree) - 1]] == freed + Tail(l, toFree0 - toFree + 1);
        DrainOne(cpu, t, pcp0, owner0, free0, count - toFree, z0, freed + Tail(l, toFree0 - toFree), record);
        toFree := toFree - 1;
        if toFree == 0 { break; }
        batchFree := batchFree - 1;
        if batchFree == 0 || pcp[cpu].lists[t] == [] { break; }
      }
      GivenIs(|old(pcp)[cpu].lists[t]|, batchFree0, toFree0, toFree0 - toFree);
    }

    lemma TypedStart()
      requires Core()
      ensures Typed(Blocks(), [], Records())
    {
      hide FreePages, PcpLinked, Zone.Valid, Zone.Balanced, Zone.ZonePages;
    }

    /** free_pcppages_bulk: free `count` pages off one CPU's lists, round robin over the lists, and
        more of them off the same list after each empty one. */
    method FreePcppagesBulk(cpu: nat, count: nat)
      requires Core() && cpu < |pcp| && count <= Total(pcp[cpu])
      modifies `pcp, `owner, zone`freeArea, zone`blocks, zone`typ, zone.memMap, stat`vmStat, stat`diff, stat`bound
      ensures Core() && |pcp| == old(|pcp|) && PcpShaped(old(pcp))
      ensures Drained(old(pcp), old(owner), old(FreePages(zone.blocks)), pcp, owner, FreePages(zone.blocks), cpu, count)
      ensures Lengths(pcp[cpu]) == Left(Lengths(old(pcp)[cpu]), 0, 0, count)
      ensures Typed(old(Blocks()), Order(old(pcp)[cpu].lists, 0, 0, count), old(Records()))
      ensures stat.Exact() == old(stat.Exact()) + count
    {
      hide FreePages, PcpLinked, Drained, Total, Zone.Valid, Zone.Balanced, Zone.ZonePages, ZoneCounter.Exact, Left, Ahead, Ring, Given;
      hide Typed, Order, Tail, Records, Blocks;
      ghost var pcp0, owner0, free0, z0, record := pcp, owner, FreePages(zone.blocks), Blocks(), Records();
      ghost var freed: seq<nat> := [];
      TypedStart();
      var migratetype: nat, batchFree: nat, toFree: nat := 0, 0, count;
      DrainStart(pcp, owner, free0, cpu);
      while toFree > 0
        invariant Core() && |pcp| == |pcp0| && toFree <= count && migratetype < MIGRATE_PCPTYPES
        invariant Drained(pcp0, owner0, free0, pcp, owner, FreePages(zone.blocks), cpu, count - toFree)
        invariant stat.Exact() == old(stat.Exact())
        invariant PcpShaped(pcp) && toFree <= Size(Lengths(pcp[cpu]))
        invariant Left(Lengths(pcp[cpu]), migratetype, batchFree, toFree) == Left(Lengths(pcp0[cpu]), 0, 0, count)
        invariant Typed(z0, freed, record)
        invariant freed + Order(pcp[cpu].lists, migratetype, batchFree, toFree) == Order(pcp0[cpu].lists, 0, 0, count)
      {
        ghost var lists := pcp[cpu].lists;
        ghost var lens, last, owed := Lengths(pcp[cpu]), migratetype, batchFree;
        DrainLeft(pcp0, owner0, free0, pcp, owner, FreePages(zone.blocks), cpu, count - toFree);
        migratetype, batchFree := NextList(cpu, migratetype, batchFree);
        ghost var n := Given(lens[migratetype], batchFree, toFree);
        LeftStep(lens, last, owed, toFree, migratetype, batchFree, n);
        OrderStep(lists, last, owed, toFree, migratetype, batchFree, n);
        ghost var owing, tail := batchFree - n, Tail(lists[migratetype], n);
        toFree, batchFree := DrainList(cpu, migratetype, toFree, batchFree, pcp0, owner0, free0, count, z0, freed, record);
        ghost var rest := Order(pcp[cpu].lists, migratetype, owing, toFree);
        assert freed + (tail + rest) == freed + tail + rest;
        freed := freed + tail;
        if toFree == 0 {
          OrderDone(pcp[cpu].lists, migratetype, owing);
          OrderDone(pcp[cpu].lists, migratetype, batchFree);
          LeftDone(Lengths(pcp[cpu]), migratetype, owing);
          LeftDone(Lengths(pcp[cpu]), migratetype, batchFree);
        }
      }
      LeftDone(Lengths(pcp[cpu]), migratetype, batchFree);
      OrderDone(pcp[cpu].lists, migratetype, batchFree);
      assert freed + [] == freed;
      Bump(cpu, count);
    }

    /** pcp.count changes; the lists do not. */
    method ChangeCount(cpu: nat, d: int)
      requires Core() && cpu < |pcp|
      modifies `pcp
      ensures Core() && PcpShaped(old(pcp)) && pcp == AddCount(old(pcp), cpu, d)
    {
      hide FreePages, PcpLinked, Total, BatchOk, AddCount, PrivTyped, Zone.Valid, Zone.Balanced, Zone.ZonePages, ZoneCounter.Valid;
      var next := AddCount(pcp, cpu, d);
      assert PcpLinked(next, owner) by { AddCountLinked(pcp, owner, cpu, d); }
      pcp := next;
    }

    /** A CPU's lists give `count` pages back and pcp.count follows: drain_pages, drain_zone_pages
        and the flush at the high mark. */
    method Flush(cpu: nat, count: nat)
      requires Valid() && cpu < |pcp| && count <= pcp[cpu].count
      modifies `pcp, `owner, zone`freeArea, zone`blocks, zone`typ, zone.memMap, stat`vmStat, stat`diff, stat`bound
      ensures Valid() && |pcp| == old(|pcp|) && Idle() == old(Idle())
      ensures Flushed(old(pcp)[cpu], pcp[cpu], count)
      ensures Typed(old(Blocks()), Order(old(pcp)[cpu].lists, 0, 0, count), old(Records()))
      ensures forall c :: 0 <= c < |pcp| && c != cpu ==> pcp[c] == old(pcp)[c]
    {
      hide FreePages, Drained, Total, BatchOk, AddCount, Core, ZoneCounter.Exact, PcpLinked, Left, Lengths, Typed, Order, Records, Blocks, PrivTyped;
      ghost var pcp0, owner0, free0 := pcp, owner, FreePages(zone.blocks);
      CoreShaped();
      FreePcppagesBulk(cpu, count);
      CoreShaped();
      DrainedKeeps(pcp0, owner0, free0, pcp, owner, FreePages(zone.blocks), cpu, count);
      DrainedCounts(pcp0, owner0, free0, pcp, owner, FreePages(zone.blocks), cpu, count);
      FlushedBy(pcp0, owner0, free0, pcp, owner, FreePages(zone.blocks), cpu, count);
      ChangeCount(cpu, 0 - count);
    }

    /** setup_pagelist_highmark for one CPU. */
    method SetHighmark(cpu: nat, high: nat, pageShift: nat)
      requires Valid() && cpu < |pcp| && pageShift > 0
      modifies `pcp
      ensures Valid() && pcp == old(pcp)[cpu := SetupHighmark(old(pcp)[cpu], high, pageShift)]
    {
      hide FreePages, Zone.Valid, Zone.Balanced, Zone.ZonePages, ZoneCounter.Valid, ZoneCounter.Exact, SetupHighmark;
      SetupBatchOk(0, pcp[cpu], high, pageShift);
      HighmarkKeeps(pcp[cpu], high, pageShift);
      ghost var was := pcp;
      pcp := pcp[cpu := SetupHighmark(pcp[cpu], high, pageShift)];
      assert forall c :: 0 <= c < |pcp| ==> pcp[c].lists == was[c].lists && pcp[c].count == was[c].count;
    }

    /** A new threshold for the free page counter of every CPU. */
    method SetThresholds(t: int)
      requires Valid() && 0 <= t <= MAX_THRESHOLD
      modifies stat`threshold
      ensures Valid() && |stat.threshold| == |pcp| && forall c :: 0 <= c < |pcp| ==> stat.threshold[c] == t
    {
      hide FreePages, Zone.Valid, Zone.Balanced, Zone.ZonePages, PcpLinked, PcpShaped, CountsRight;
      stat.SetThresholds(t);
    }

    /** NR_FREE_PAGES is the number of pages that the free lists account for: the sum over all orders o
        of nr_free[o] * 2^o. */
    lemma FreeCounterIsSum()
      requires Valid()
      ensures stat.Exact() == PagesFrom(NrFree(zone.freeArea), 0)
    {
      hide FreePages, Zone.ZonePages, PcpLinked, PcpShaped, CountsRight, ZoneCounter.Exact;
      NrFreeCountsPages(zone.freeArea, zone.blocks, zone.maxOrder);
    }

    lemma CoreShaped()
      requires Core()
      ensures PcpShaped(pcp) && zone.Geometry() && PrivTyped()
    {
    }

    /** __free_one_page of a held run. */
    method ReleaseRun(page: nat, order: nat, mt: nat) returns (ghost head: nat, ghost top: nat)
      requires Core() && order < zone.maxOrder && mt < MIGRATE_TYPES
      requires Aligned(page, order) && Run(page, order) <= Held()
      modifies zone`freeArea, zone`blocks, zone`typ, zone.memMap
      ensures Core()
      ensures zone.blocks == Coalesce(old(zone.blocks), page, order, zone.maxOrder)
      ensures FreePages(zone.blocks) == old(FreePages(zone.blocks)) + Run(page, order)
      ensures |FreePages(zone.blocks)| == old(|FreePages(zone.blocks)|) + Pow2(order)
      ensures Run(page, order) !! owner.Keys
      ensures order <= top && head == RunHead(page, order, top) && IsBlock(zone.blocks, head, top) && zone.typ[head] == mt
      ensures forall h :: h in zone.blocks && h != head ==> h in old(zone.typ) && zone.typ[h] == old(zone.typ)[h]
    {
      hide FreePages, Run, Coalesce, PcpLinked, ListsAfterFree, Aligned, RunHead, PcpShaped, Pow2, Zone.Balanced, Zone.Valid, Zone.LikelyToMerge, Zone.ZonePages, ZoneCounter.Valid, RecordFits, PrivTyped;
      HeldRun(owner, FreePages(zone.blocks), zone.ZonePages(), Run(page, order));
      RunCardinality(page, order);
      head, top := zone.FreeOnePage(page, order, mt);
      ListedKept(FreePages(zone.blocks));
    }

    /** The records hold as long as the pages of the buddy system are the only ones that change. */
    twostate lemma ListedKept(free: set<nat>)
      ensures (&& old(PrivTyped()) && owner == old(owner) && owner.Keys !! free
               && forall q :: 0 <= q < zone.memMap.Length && q !in free ==> zone.memMap[q] == old(zone.memMap[q])) ==> PrivTyped()
    {
    }

    lemma ReleasedIs(z: Store, page: nat, order: nat, mt: nat, head: nat, top: nat)
      requires Core() && zone.blocks == Coalesce(z.blocks, page, order, zone.maxOrder) && Aligned(page, order)
      requires order <= top && head == RunHead(page, order, top) && IsBlock(zone.blocks, head, top) && zone.typ[head] == mt
      requires forall h :: h in zone.blocks && h != head ==> h in z.typ && zone.typ[h] == z.typ[h]
      ensures Blocks() == FreeTyped(z, page, order, mt, zone.maxOrder)
    {
      hide FreePages, Canonical, Linked, Coalesce, Aligned, RunHead, FreeTyped, PcpLinked, PrivTyped;
      FreedIs(z, Blocks(), page, order, mt, zone.maxOrder, head, top);
    }

    /** ReleaseRun as a step on blocks and types. */
    method ReleaseTyped(page: nat, order: nat, mt: nat)
      requires Core() && order < zone.maxOrder && mt < MIGRATE_TYPES
      requires Aligned(page, order) && Run(page, order) <= Held()
      modifies zone`freeArea, zone`blocks, zone`typ, zone.memMap
      ensures Core() && Run(page, order) !! owner.Keys
      ensures zone.blocks == Coalesce(old(zone.blocks), page, order, zone.maxOrder)
      ensures FreePages(zone.blocks) == old(FreePages(zone.blocks)) + Run(page, order)
      ensures |FreePages(zone.blocks)| == old(|FreePages(zone.blocks)|) + Pow2(order)
      ensures Blocks() == FreeTyped(old(Blocks()), page, order, mt, zone.maxOrder)
    {
      hide FreePages, FreeTyped, RunHead, Run, Coalesce, Aligned, Pow2, PcpLinked, PcpShaped, PrivTyped, Canonical, Linked, Counted, Zone.ZonePages, ZoneCounter.Valid;
      ghost var z := Blocks();
      ghost var head, top;
      head, top := ReleaseRun(page, order, mt);
      ReleasedIs(z, page, order, mt, head, top);
    }

    /** free_one_page: free a block straight into the buddy system. */
    method FreeOneBlock(cpu: nat, page: nat, order: nat, mt: nat)
      requires Valid() && cpu < |pcp| && order < zone.maxOrder && mt < MIGRATE_TYPES
      requires Aligned(page, order) && Run(page, order) <= Held()
      modifies zone`freeArea, zone`blocks, zone`typ, zone.memMap, stat`vmStat, stat`diff, stat`bound
      ensures Valid() && Idle() == old(Idle()) + Run(page, order)
      ensures zone.blocks == Coalesce(old(zone.blocks), page, order, zone.maxOrder)
      ensures Blocks() == FreeTyped(old(Blocks()), page, order, mt, zone.maxOrder) && pcp == old(pcp) && owner == old(owner)
    {
      hide FreePages, FreeTyped, Run, Coalesce, Core, PcpLinked, Aligned, PcpShaped, BatchOk, Pow2, Zone.ZonePages, ZoneCounter.Exact;
      ReleaseTyped(page, order, mt);
      Bump(cpu, Pow2(order));
    }

    /** __mod_zone_page_state of NR_FREE_PAGES. */
    method Bump(cpu: nat, delta: int)
      requires Core() && cpu < |pcp|
      modifies stat`vmStat, stat`diff, stat`bound
      ensures Core() && stat.Exact() == old(stat.Exact()) + delta
    {
      hide FreePages, PcpLinked, PcpShaped, Zone.Balanced, Zone.Valid, Zone.ZonePages, ZoneCounter.Valid, ZoneCounter.Exact, PrivTyped;
      CoreStat();
      stat.ModZonePageState(cpu, delta);
    }

    lemma CoreStat()
      requires Core()
      ensures stat.Valid() && |stat.diff| == |pcp|
    {
    }

    /** Link a held page at position i of a per-CPU list. */
    method InsertPage(cpu: nat, t: nat, page: nat, i: nat)
      requires Core() && cpu < |pcp| && t < MIGRATE_PCPTYPES && i <= |pcp[cpu].lists[t]| && page in Held()
      requires page < zone.memMap.Length && RecordFits(zone.memMap[page].priv, t)
      modifies `pcp, `owner
      ensures Core() && PcpShaped(old(pcp)) && page !in old(owner) && owner == old(owner)[page := (cpu, t)]
      ensures var l := old(pcp)[cpu].lists[t]; pcp == SetPcpList(old(pcp), cpu, t, l[..i] + [page] + l[i..])
    {
      hide FreePages, PcpLinked, Total, BatchOk, Zone.Valid, Zone.Balanced, Zone.ZonePages, ZoneCounter.Valid, SetPcpList;
      var l := pcp[cpu].lists[t];
      InsertLinked(pcp, owner, cpu, t, page, i);
      pcp := SetPcpList(pcp, cpu, t, l[..i] + [page] + l[i..]);
      owner := owner[page := (cpu, t)];
    }

    /** list_add or list_add_tail of a page onto a per-CPU list. */
    method PushPcp(cpu: nat, t: nat, page: nat, cold: bool)
      requires Valid() && cpu < |pcp| && t < MIGRATE_PCPTYPES && page in Held()
      requires page < zone.memMap.Length && RecordFits(zone.memMap[page].priv, t)
      modifies `pcp, `owner
      ensures Valid() && Idle() == old(Idle()) + {page}
      ensures |pcp| == old(|pcp|) && forall c :: 0 <= c < |pcp| && c != cpu ==> pcp[c] == old(pcp)[c]
      ensures pcp[cpu] == PushedPcp(old(pcp)[cpu], t, page, cold) && owner == old(owner)[page := (cpu, t)]
    {
      hide FreePages, BatchOk, Core, ZoneCounter.Exact, SetPcpList, AddCount, Total, PcpLinked, CountsRight, PushedPcp, Zone.ZonePages;
      CoreShaped();
      PushedCounts(pcp, cpu, t, page, cold);
      InsertPage(cpu, t, page, if cold then |pcp[cpu].lists[t]| else 0);
      ChangeCount(cpu, 1);
    }

    /** Record the pageblock's type as the page's private value. */
    method MarkType(page: nat) returns (mt: nat)
      requires Core() && page in Held()
      modifies zone.memMap
      ensures Core() && mt < MIGRATE_TYPES && page < zone.memMap.Length && zone.memMap[page].priv == mt
      ensures forall q :: 0 <= q < zone.memMap.Length && q != page ==> zone.memMap[q] == old(zone.memMap[q])
      ensures Shr(page, zone.pageblockOrder) < zone.blockType.Length && mt == zone.blockType[Shr(page, zone.pageblockOrder)]
    {
      hide FreePages, Canonical, Linked, Counted, PcpLinked, PcpShaped, Shr;
      HeldPage(page);
      mt := zone.blockType[Shr(page, zone.pageblockOrder)];
      zone.SetPagePrivate(page, mt);
    }

    /** free_hot_cold_page: to the CPU's list of the pageblock's type; pages of isolated
        pageblocks go straight back, reserve counts as movable. */
    method FreeHotColdPage(cpu: nat, page: nat, cold: bool)
      requires Valid() && cpu < |pcp| && page in Held()
      modifies `pcp, `owner, zone`freeArea, zone`blocks, zone`typ, zone.memMap, stat`vmStat, stat`diff, stat`bound
      ensures Valid() && Idle() == old(Idle()) + {page} && |pcp| == old(|pcp|)
      ensures forall c :: 0 <= c < |pcp| && c != cpu ==> pcp[c] == old(pcp)[c]
      ensures Shr(page, zone.pageblockOrder) < zone.blockType.Length && |old(pcp)[cpu].lists| == MIGRATE_PCPTYPES
      ensures var t := zone.blockType[Shr(page, zone.pageblockOrder)];
        if t == MIGRATE_ISOLATE then
          pcp == old(pcp) && Blocks() == FreeTyped(old(Blocks()), page, 0, t, zone.maxOrder)
        else
          var p := PushedPcp(old(pcp)[cpu], if t >= MIGRATE_PCPTYPES then MIGRATE_MOVABLE else t, page, cold);
          Trimmed(p, pcp[cpu], old(Blocks()), old(Records())[page := t])
    {
      hide FreePages, Core, PcpLinked, Total, ZoneCounter.Exact, Zone.ZonePages, Shr, FreeTyped, Trimmed, Blocks, PushedPcp, Records, PrivTyped;
      CoreShaped();
      HeldPage(page);
      var migratetype := MarkType(page);
      CoreShaped();
      MarkedRecords(page);
      FreeMarked(cpu, page, migratetype, cold);
    }

    /** free_hot_cold_page once the type of the page is recorded. */
    method FreeMarked(cpu: nat, page: nat, t: nat, cold: bool)
      requires Valid() && cpu < |pcp| && page in Held() && t < MIGRATE_TYPES
      requires page < zone.memMap.Length && zone.memMap[page].priv == t
      modifies `pcp, `owner, zone`freeArea, zone`blocks, zone`typ, zone.memMap, stat`vmStat, stat`diff, stat`bound
      ensures Valid() && Idle() == old(Idle()) + {page} && |pcp| == old(|pcp|)
      ensures forall c :: 0 <= c < |pcp| && c != cpu ==> pcp[c] == old(pcp)[c]
      ensures |old(pcp)[cpu].lists| == MIGRATE_PCPTYPES
      ensures if t == MIGRATE_ISOLATE then
          pcp == old(pcp) && Blocks() == FreeTyped(old(Blocks()), page, 0, t, zone.maxOrder)
        else
          var p := PushedPcp(old(pcp)[cpu], if t >= MIGRATE_PCPTYPES then MIGRATE_MOVABLE else t, page, cold);
          Trimmed(p, pcp[cpu], old(Blocks()), old(Records())[page := t])
    {
      hide FreePages, Core, PcpLinked, Total, Run, Coalesce, Aligned, ZoneCounter.Exact, Zone.ZonePages, FreeTyped, Trimmed, Blocks, PushedPcp;
      hide Records, PrivTyped;
      CoreShaped();
      SinglePage(page);
      var migratetype := t;
      if migratetype >= MIGRATE_PCPTYPES {
        if migratetype == MIGRATE_ISOLATE {
          FreeOneBlock(cpu, page, 0, migratetype);
          return;
        }
        migratetype := MIGRATE_MOVABLE;
      }
      FreeListed(cpu, migratetype, page, cold);
    }

    /** At the high mark a CPU's lists give a batch back, whose pages are freed as they are recorded. */
    ghost predicate Trimmed(p: PerCpuPages, p': PerCpuPages, z0: Store, record: map<nat, nat>)
      reads `owner, zone`blocks, zone`typ, zone.memMap
    {
      if p.count >= p.high then
        0 <= p.batch && Flushed(p, p', p.batch) && Typed(z0, Order(p.lists, 0, 0, p.batch), record)
      else p' == p && Typed(z0, [], record)
    }

    /** A held page whose type is recorded joins a CPU's list, which gives a batch back at the high mark. */
    method FreeListed(cpu: nat, t: nat, page: nat, cold: bool)
      requires Valid() && cpu < |pcp| && t < MIGRATE_PCPTYPES && page in Held()
      requires page < zone.memMap.Length && RecordFits(zone.memMap[page].priv, t)
      modifies `pcp, `owner, zone`freeArea, zone`blocks, zone`typ, zone.memMap, stat`vmStat, stat`diff, stat`bound
      ensures Valid() && Idle() == old(Idle()) + {page} && |pcp| == old(|pcp|)
      ensures forall c :: 0 <= c < |pcp| && c != cpu ==> pcp[c] == old(pcp)[c]
      ensures |old(pcp)[cpu].lists| == MIGRATE_PCPTYPES
      ensures var p := PushedPcp(old(pcp)[cpu], t, page, cold);
        var record := old(Records())[page := old(zone.memMap[page].priv)];
        Trimmed(p, pcp[cpu], old(Blocks()), record)
    {
      hide FreePages, Core, PcpLinked, Total, ZoneCounter.Exact, Zone.ZonePages, Flushed, Typed, Order, Blocks, Records, PrivTyped;
      CoreShaped();
      ghost var mt := zone.memMap[page].priv;
      PushPcp(cpu, t, page, cold);
      CoreShaped();
      PushedRecords(page);
      TypedStart();
      if pcp[cpu].count >= pcp[cpu].high {
        Flush(cpu, pcp[cpu].batch);
      }
    }

    twostate lemma PushedRecords(page: nat)
      ensures (&& old(PrivTyped()) && PrivTyped() && page < zone.memMap.Length && zone.memMap[..] == old(zone.memMap[..])
               && page in owner && owner == old(owner)[page := owner[page]])
              ==> Records() == old(Records())[page := old(zone.memMap[page].priv)]
    {
    }

    twostate lemma MarkedRecords(page: nat)
      ensures (&& old(PrivTyped()) && PrivTyped() && page !in owner && owner == old(owner)
               && forall q :: 0 <= q < zone.memMap.Length && q != page ==> zone.memMap[q] == old(zone.memMap[q]))
              ==> Records() == old(Records())
    {
    }

    lemma HeldPage(page: nat)
      requires Core() && page in Held()
      ensures zone.InZone(page) && page !in zone.blocks && page !in owner
    {
      hide FreePages, Canonical, Linked, Counted, PcpLinked;
      if page in zone.blocks { BlockInFreePages(zone.blocks, page); }
    }

    /** drain_zone_pages: at most one batch. */
    method DrainZonePages(cpu: nat)
      requires Valid() && cpu < |pcp|
      modifies `pcp, `owner, zone`freeArea, zone`blocks, zone`typ, zone.memMap, stat`vmStat, stat`diff, stat`bound
      ensures Valid() && |pcp| == old(|pcp|) && Idle() == old(Idle())
      ensures pcp[cpu].count == Max(0, old(pcp)[cpu].count - old(pcp)[cpu].batch)
      ensures forall c :: 0 <= c < |pcp| && c != cpu ==> pcp[c] == old(pcp)[c]
    {
      hide FreePages, Core, PcpLinked, Total, ZoneCounter.Exact, Zone.ZonePages;
      CoreShaped();
      var toDrain := if pcp[cpu].count >= pcp[cpu].batch then pcp[cpu].batch else pcp[cpu].count;
      Flush(cpu, toDrain);
    }

    /** drain_pages: everything one CPU holds. */
    method DrainPages(cpu: nat)
      requires Valid() && cpu < |pcp|
      modifies `pcp, `owner, zone`freeArea, zone`blocks, zone`typ, zone.memMap, stat`vmStat, stat`diff, stat`bound
      ensures Valid() && |pcp| == old(|pcp|) && Idle() == old(Idle()) && pcp[cpu].count == 0
      ensures forall c :: 0 <= c < |pcp| && c != cpu ==> pcp[c] == old(pcp)[c]
    {
      hide FreePages, Core, PcpLinked, Total, ZoneCounter.Exact, Zone.ZonePages;
      CoreShaped();
      if pcp[cpu].count != 0 {
        Flush(cpu, pcp[cpu].count);
      }
    }

    /** drain_all_pages: afterwards every idle page is in the buddy system. */
    method DrainAllPages()
      requires Valid()
      modifies `pcp, `owner, zone`freeArea, zone`blocks, zone`typ, zone.memMap, stat`vmStat, stat`diff, stat`bound
      ensures Valid() && |pcp| == old(|pcp|) && owner == map[]
      ensures FreePages(zone.blocks) == old(Idle())
    {
      hide FreePages, Core, Total, ZoneCounter.Exact, Zone.ZonePages;
      for c := 0 to |pcp|
        invariant Valid() && |pcp| == old(|pcp|) && Idle() == old(Idle())
        invariant forall k :: 0 <= k < c ==> pcp[k].count == 0
      {
        DrainPages(c);
      }
      AllDrained();
    }

    lemma AllDrained()
      requires Core() && CountsRight(pcp) && forall k :: 0 <= k < |pcp| ==> pcp[k].count == 0
      ensures owner == map[] && Idle() == FreePages(zone.blocks)
    {
      hide FreePages, Canonical, Linked, Counted;
      if p :| p in owner {
        OwnedIsCounted(pcp, owner, p);
      }
    }

    /** __rmqueue on behalf of the page lists. */
    method TakeRun(order: nat, mt: nat) returns (page: Option<nat>)
      requires Core() && mt < MIGRATE_PCPTYPES
      modifies zone`freeArea, zone`blocks, zone`typ, zone.memMap, zone.blockType
      ensures Core()
      ensures page.None? <==> !Available(old(zone.blocks), old(zone.typ), order)
      ensures page.None? ==> unchanged(zone`blocks) && unchanged(zone`typ) && zone.Now() == old(zone.Now())
      ensures page.Some? ==>
        && zone.Taken(old(zone.Now()), zone.Now(), page.value, order, mt)
        && zone.Allocated(old(zone.blocks), zone.blocks, page.value, order)
        && |FreePages(zone.blocks)| + Pow2(order) == old(|FreePages(zone.blocks)|)
        && Run(page.value, order) <= Held()
    {
      hide FreePages, Run, PcpLinked, Aligned, PcpShaped, Pow2, Allocate, Zone.Balanced, Zone.Valid, Zone.ZonePages, ZoneCounter.Valid, Available, Choice;
      hide Zone.Served, Canonical, Linked;
      CoreZone();
      page := zone.Rmqueue(order, mt);
      if page.Some? {
        RunCardinality(page.value, order);
        TakenRun(owner, old(FreePages(zone.blocks)), zone.ZonePages(), Run(page.value, order));
        assert owner.Keys !! FreePages(zone.blocks);
        assert PrivTyped();
      }
    }

    lemma CoreZone()
      requires Core()
      ensures zone.Valid() && zone.Balanced()
    {
    }

    /** One page from the buddy system to position i of a per-CPU list. */
    method RefillOne(cpu: nat, t: nat, i: nat) returns (page: Option<nat>)
      requires Core() && cpu < |pcp| && t < MIGRATE_PCPTYPES && i <= |pcp[cpu].lists[t]|
      modifies `pcp, `owner, zone`freeArea, zone`blocks, zone`typ, zone.memMap, zone.blockType
      ensures Core() && PcpShaped(old(pcp)) && Idle() == old(Idle())
      ensures page.None? <==> !Available(old(zone.blocks), old(zone.typ), 0)
      ensures page.None? ==> pcp == old(pcp) && unchanged(zone`blocks) && unchanged(zone`typ) && zone.Now() == old(zone.Now())
      ensures page.Some? ==>
        var l := old(pcp)[cpu].lists[t];
        && zone.Taken(old(zone.Now()), zone.Now(), page.value, 0, t)
        && pcp == SetPcpList(old(pcp), cpu, t, l[..i] + [page.value] + l[i..])
        && |FreePages(zone.blocks)| + 1 == old(|FreePages(zone.blocks)|)
    {
      hide FreePages, Core, PcpLinked, Run, Aligned, Pow2, Allocate, Zone.ZonePages, SetPcpList, Available, Zone.Taken;
      CoreShaped();
      page := TakeRun(0, t);
      if page.Some? {
        SinglePage(page.value);
        SetPrivate(page.value, t);
        InsertPage(cpu, t, page.value, i);
      }
    }

    /** set_page_private of a held page. */
    method SetPrivate(page: nat, v: nat)
      requires Core() && page in Held()
      modifies zone.memMap
      ensures Core() && page < zone.memMap.Length && zone.memMap[page].priv == v
    {
      hide FreePages, Canonical, Linked, Counted, PcpLinked, PcpShaped;
      HeldPage(page);
      zone.SetPagePrivate(page, v);
    }

    /** rmqueue_bulk for single pages: refill a per-CPU list with up to `count` pages. */
    method RmqueueBulk(cpu: nat, count: nat, t: nat, cold: bool) returns (n: nat, ghost taken: seq<nat>, ghost shots: seq<Shot>)
      requires Core() && Accounted() && cpu < |pcp| && t < MIGRATE_PCPTYPES
      modifies `pcp, `owner, zone`freeArea, zone`blocks, zone`typ, zone.memMap, zone.blockType, stat`vmStat, stat`diff, stat`bound
      ensures Core() && Accounted() && PcpShaped(old(pcp)) && Idle() == old(Idle())
      ensures n == |taken| <= count && (n < count ==> !Available(zone.blocks, zone.typ, 0))
      ensures count > 0 ==> (n == 0 <==> !Available(old(zone.blocks), old(zone.typ), 0))
      ensures pcp == SetPcpList(old(pcp), cpu, t, Filled(old(pcp)[cpu].lists[t], taken, cold))
      ensures zone.TakenAll(old(zone.Now()), zone.Now(), shots, taken, t)
    {
      hide FreePages, Core, PcpLinked, Total, BatchOk, Zone.ZonePages, SetPcpList, Available, Filled, ZoneCounter.Exact, Zone.TakenAll, Zone.Taken, PrivTyped;
      CoreShaped();
      ghost var pcp0 := pcp;
      var l0 := pcp[cpu].lists[t];
      FilledStart(pcp, cpu, t, cold);
      n, taken, shots := 0, [], [zone.Now()];
      zone.NoneTaken(zone.Now(), t);
      while n < count
        invariant zone.TakenAll(old(zone.Now()), zone.Now(), shots, taken, t)
        invariant Core() && PcpShaped(pcp) && |pcp| == |pcp0| && n == |taken| <= count && Idle() == old(Idle())
        invariant pcp == SetPcpList(pcp0, cpu, t, Filled(l0, taken, cold))
        invariant |FreePages(zone.blocks)| + n == old(|FreePages(zone.blocks)|)
        invariant stat.Exact() == old(stat.Exact())
        invariant n == 0 ==> zone.blocks == old(zone.blocks) && zone.typ == old(zone.typ)
        invariant n > 0 ==> Available(old(zone.blocks), old(zone.typ), 0)
      {
        FilledStep(l0, taken, cold, 0);
        ghost var z := zone.Now();
        var page := RefillOne(cpu, t, if cold then |l0| else n);
        if page.None? {
          break;
        }
        FilledStep(l0, taken, cold, page.value);
        SetTwice(pcp0, cpu, t, Filled(l0, taken, cold), Filled(l0, taken + [page.value], cold));
        zone.TakenNext(old(zone.Now()), z, zone.Now(), shots, taken, page.value, t);
        n, taken, shots := n + 1, taken + [page.value], shots + [zone.Now()];
      }
      Bump(cpu, 0 - n);
    }

    /** Unlink the page at position i of a per-CPU list: it becomes held. */
    method UnlistPage(cpu: nat, t: nat, i: nat) returns (page: nat)
      requires Core() && cpu < |pcp| && t < MIGRATE_PCPTYPES && i < |pcp[cpu].lists[t]|
      modifies `pcp, `owner
      ensures Core() && PcpShaped(old(pcp))
      ensures var l := old(pcp)[cpu].lists[t];
        && page == l[i] && page in old(owner) && owner == old(owner) - {page}
        && pcp == SetPcpList(old(pcp), cpu, t, l[..i] + l[i + 1..])
      ensures page !in Idle() && Idle() == old(Idle()) - {page}
    {
      hide FreePages, PcpLinked, Total, BatchOk, Zone.Valid, Zone.Balanced, Zone.ZonePages, ZoneCounter.Valid, SetPcpList;
      var l := pcp[cpu].lists[t];
      RemoveLinked(pcp, owner, cpu, t, i);
      page := l[i];
      pcp := SetPcpList(pcp, cpu, t, l[..i] + l[i + 1..]);
      owner := owner - {page};
    }

    /** What a single page is taken from: a hot request takes the first page of the list and a cold one the
        last, and the zone stays as it is; after a refill both take the page that came first out of the zone. */
    ghost predicate TakenFrom(p0: PerCpuPages, p: PerCpuPages, z0: Shot, z1: Shot, t: nat, cold: bool, page: nat)
      requires t < MIGRATE_PCPTYPES
    {
      && t < |p0.lists|
      && if p0.lists[t] != [] then EndTaken(p0, p, t, cold, page) && z1 == z0
         else exists taken, shots :: RefilledBy(p0, p, t, cold, page, taken) && zone.TakenAll(z0, z1, shots, taken, t)
    }

    /** rmqueue_bulk for an empty list, with pcp.count. */
    method Refill(cpu: nat, mt: nat, cold: bool) returns (ghost taken: seq<nat>, ghost shots: seq<Shot>)
      requires Valid() && cpu < |pcp| && mt < MIGRATE_PCPTYPES && pcp[cpu].lists[mt] == []
      modifies `pcp, `owner, zone`freeArea, zone`blocks, zone`typ, zone.memMap, zone.blockType, stat`vmStat, stat`diff, stat`bound
      ensures Valid() && Idle() == old(Idle()) && PcpShaped(old(pcp))
      ensures pcp == AddCount(SetPcpList(old(pcp), cpu, mt, Filled([], taken, cold)), cpu, |taken|)
      ensures |taken| <= old(pcp)[cpu].batch && (taken == [] <==> !Available(old(zone.blocks), old(zone.typ), 0))
      ensures pcp[cpu].lists[mt] == [] <==> taken == []
      ensures zone.TakenAll(old(zone.Now()), zone.Now(), shots, taken, mt)
    {
      hide FreePages, Core, PcpLinked, BatchOk, Zone.ZonePages, SetPcpList, AddCount, Available, Filled, ZoneCounter.Exact, Total, PrivTyped, Zone.TakenAll;
      CoreShaped();
      ghost var pcp0 := pcp;
      BatchPositive(pcp, cpu);
      var n;
      n, taken, shots := RmqueueBulk(cpu, pcp[cpu].batch, mt, cold);
      RefillCounts(pcp0, cpu, mt, taken, cold);
      ChangeCount(cpu, n);
    }

    /** The first page of a CPU's list, or the last, is handed out. */
    method TakeEnd(cpu: nat, mt: nat, cold: bool) returns (page: nat)
      requires Valid() && cpu < |pcp| && mt < MIGRATE_PCPTYPES && pcp[cpu].lists[mt] != []
      modifies `pcp, `owner
      ensures Valid() && page in old(Idle()) && Idle() == old(Idle()) - {page} && PcpShaped(old(pcp))
      ensures var l := old(pcp)[cpu].lists[mt]; var i := if cold then |l| - 1 else 0;
        page == l[i] && pcp == AddCount(SetPcpList(old(pcp), cpu, mt, l[..i] + l[i + 1..]), cpu, -1)
    {
      hide FreePages, Core, PcpLinked, BatchOk, Zone.ZonePages, SetPcpList, AddCount, ZoneCounter.Exact, Total, PrivTyped;
      CoreShaped();
      var i := if cold then |pcp[cpu].lists[mt]| - 1 else 0;
      RemovedCounts(pcp, cpu, mt, i);
      page := UnlistPage(cpu, mt, i);
      ChangeCount(cpu, -1);
    }

    /** The order-0 part of buffered_rmqueue: from the CPU's list, refilled when it is empty. */
    method TakePage(cpu: nat, mt: nat, cold: bool) returns (page: Option<nat>)
      requires Valid() && cpu < |pcp| && mt < MIGRATE_PCPTYPES
      modifies `pcp, `owner, zone`freeArea, zone`blocks, zone`typ, zone.memMap, zone.blockType, stat`vmStat, stat`diff, stat`bound
      ensures Valid() && |pcp| == old(|pcp|)
      ensures page.None? <==> old(pcp)[cpu].lists[mt] == [] && !Available(old(zone.blocks), old(zone.typ), 0)
      ensures page.None? ==> Idle() == old(Idle())
      ensures page.Some? ==> page.value in old(Idle()) && Idle() == old(Idle()) - {page.value}
      ensures forall c :: 0 <= c < |pcp| && c != cpu ==> pcp[c] == old(pcp)[c]
      ensures page.Some? ==> TakenFrom(old(pcp)[cpu], pcp[cpu], old(zone.Now()), zone.Now(), mt, cold, page.value)
    {
      hide FreePages, Core, PcpLinked, BatchOk, Zone.ZonePages, SetPcpList, AddCount, Available, Filled, ZoneCounter.Exact, Total, PrivTyped, Zone.TakenAll;
      hide EndTaken, RefilledBy;
      CoreShaped();
      ghost var pcp0, taken, shots := pcp, [], [];
      if pcp[cpu].lists[mt] == [] {
        taken, shots := Refill(cpu, mt, cold);
        CoreShaped();
        if pcp[cpu].lists[mt] == [] {
          RefilledOthers(pcp0, cpu, mt, taken, cold);
          return None;
        }
      }
      BatchPositive(pcp0, cpu);
      var p := TakeEnd(cpu, mt, cold);
      TakenBy(pcp0, pcp, cpu, mt, cold, p, taken);
      return Some(p);
    }

    /** buffered_rmqueue: single pages through the CPU's lists, larger runs from the zone. */
    method BufferedRmqueue(cpu: nat, order: nat, mt: nat, cold: bool) returns (page: Option<nat>)
      requires Valid() && cpu < |pcp| && mt < MIGRATE_PCPTYPES
      modifies `pcp, `owner, zone`freeArea, zone`blocks, zone`typ, zone.memMap, zone.blockType, stat`vmStat, stat`diff, stat`bound
      ensures Valid() && |pcp| == old(|pcp|)
      ensures page.None? <==>
        (order == 0 ==> old(pcp)[cpu].lists[mt] == []) && !Available(old(zone.blocks), old(zone.typ), order)
      ensures page.None? ==> Idle() == old(Idle())
      ensures page.Some? ==>
        && Aligned(page.value, order) && Run(page.value, order) <= old(Idle())
        && Idle() == old(Idle()) - Run(page.value, order)
      ensures forall c :: 0 <= c < |pcp| && c != cpu ==> pcp[c] == old(pcp)[c]
      ensures page.Some? && order == 0 ==> TakenFrom(old(pcp)[cpu], pcp[cpu], old(zone.Now()), zone.Now(), mt, cold, page.value)
      ensures page.Some? && order > 0 ==>
        && pcp == old(pcp) && zone.Allocated(old(zone.blocks), zone.blocks, page.value, order) && order < zone.maxOrder
        && zone.Taken(old(zone.Now()), zone.Now(), page.value, order, mt)
    {
      hide FreePages, Core, PcpLinked, Zone.ZonePages, Available, ZoneCounter.Exact, Total, Run, Aligned, Pow2, Allocate, TakenFrom, Zone.Taken;
      CoreShaped();
      if order == 0 {
        page := TakePage(cpu, mt, cold);
        if page.Some? { SinglePage(page.value); }
      } else {
        page := TakeRun(order, mt);
        if page.Some? {
          Bump(cpu, 0 - Pow2(order));
        }
      }
    }

    /** __free_pages, once the last reference is gone. */
    method FreePagesOp(cpu: nat, page: nat, order: nat)
      requires Valid() && cpu < |pcp| && order < zone.maxOrder && Aligned(page, order) && Run(page, order) <= Held()
      modifies `pcp, `owner, zone`freeArea, zone`blocks, zone`typ, zone.memMap, stat`vmStat, stat`diff, stat`bound
      ensures Valid() && |pcp| == old(|pcp|) && Idle() == old(Idle()) + Run(page, order)
      ensures order > 0 ==> Shr(page, zone.pageblockOrder) < zone.blockType.Length && pcp == old(pcp)
      ensures order > 0 ==>
        Blocks() == FreeTyped(old(Blocks()), page, order, zone.blockType[Shr(page, zone.pageblockOrder)], zone.maxOrder)
    {
      hide FreePages, Core, PcpLinked, Zone.ZonePages, ZoneCounter.Exact, Total, Run, Aligned, Coalesce, FreeTyped, Trimmed, Shr, PushedPcp;
      CoreShaped();
      InRunIff(page, order);
      if order == 0 {
        SinglePage(page);
        FreeHotColdPage(cpu, page, false);
      } else {
        var mt := PageblockTypeOf(page);
        FreeOneBlock(cpu, page, order, mt);
      }
    }

    method PageblockTypeOf(page: nat) returns (mt: nat)
      requires Core() && page in Held()
      ensures mt < MIGRATE_TYPES && Shr(page, zone.pageblockOrder) < zone.blockType.Length
      ensures mt == zone.blockType[Shr(page, zone.pageblockOrder)]
    {
      hide FreePages, Canonical, Linked, Counted, PcpLinked, PcpShaped, Shr;
      HeldPage(page);
      mt := zone.blockType[Shr(page, zone.pageblockOrder)];
    }

    /** A whole free block leaves the buddy system. */
    method TakeWhole(page: nat) returns (order: nat)
      requires Core() && page in zone.blocks
      modifies zone`freeArea, zone`blocks, zone`typ, zone.memMap
      ensures Core() && order == old(zone.blocks)[page] && zone.blocks == old(zone.blocks) - {page}
      ensures FreePages(zone.blocks) == old(FreePages(zone.blocks)) - Run(page, order)
      ensures |FreePages(zone.blocks)| + Pow2(order) == old(|FreePages(zone.blocks)|)
      ensures Run(page, order) <= zone.ZonePages() && Run(page, order) !! owner.Keys
    {
      hide FreePages, PcpLinked, ZoneCounter.Valid, Run, Pow2, PcpShaped, Zone.Valid, Zone.Balanced, Zone.ZonePages, RecordFits, PrivTyped;
      zone.FreeInZone();
      order := zone.WithdrawBlock(page);
      TakenRun(owner, old(FreePages(zone.blocks)), zone.ZonePages(), Run(page, order));
      RunCardinality(page, order);
      assert owner.Keys <= zone.ZonePages();
      assert owner.Keys !! FreePages(zone.blocks);
      InRunIff(page, order);
      StillTyped(page);
    }

    /** A page that is on no per-CPU list does not matter to the records. */
    twostate lemma StillTyped(h: nat)
      ensures (&& old(PrivTyped()) && owner == old(owner) && h !in owner
               && forall q :: 0 <= q < zone.memMap.Length && q != h ==> zone.memMap[q] == old(zone.memMap[q])) ==> PrivTyped()
    {
    }

    /** zone_page_state: the zone counter as it stands, read as 0 if it is negative. */
    function PageState(): (r: nat)
      reads stat
      ensures stat.Valid() ==> r <= Max(0, stat.Exact() + |stat.diff| * MAX_THRESHOLD)
    {
      StateBound();
      Max(0, stat.vmStat)
    }

    lemma StateBound()
      ensures stat.Valid() ==> stat.vmStat <= stat.Exact() + |stat.diff| * MAX_THRESHOLD
    {
      if stat.Valid() {
        stat.DriftBound();
      }
    }

    /** Without isolated blocks, a watermark check on the counter as it stands guarantees the allocation
        if 125 pages per CPU are within the margin that the mark leaves. */
    lemma PassOnCounter(order: nat, min: nat, lowmem: nat, word: nat)
      requires Valid() && order < zone.maxOrder && forall h :: h in zone.typ ==> zone.typ[h] != MIGRATE_ISOLATE
      requires Passes(NrFree(zone.freeArea), order, min, lowmem, PageState(), word) && (order >= 1 || PageState() >= 2)
      requires |pcp| * MAX_THRESHOLD <= Margin(order, min, lowmem)
      ensures Available(zone.blocks, zone.typ, order)
    {
      hide FreePages, Canonical, Counted, Linked, Available, Passes, Zone.ZonePages, PcpLinked, PcpShaped, CountsRight, ZoneCounter.Exact;
      PassWithDrift(zone.freeArea, zone.blocks, zone.typ, zone.maxOrder, order, min, lowmem, word, PageState(), |pcp| * MAX_THRESHOLD);
    }

    /** split_free_page: hand out one particular free block, if a single page more than the block could
        be had above the low watermark; lowmem is the zone's reserve against its own class. */
    method SplitFreePage(cpu: nat, page: nat, low: nat, lowmem: nat, word: nat) returns (n: nat)
      requires Valid() && cpu < |pcp| && page in zone.blocks
      requires FitsLong(PageState() - 2, word) && low + Pow2(zone.blocks[page]) + lowmem < word
      modifies zone`freeArea, zone`blocks, zone`typ, zone.memMap, zone.blockType, stat`vmStat, stat`diff, stat`bound
      ensures Valid()
      ensures var order := old(zone.blocks)[page];
        if Passes(old(NrFree(zone.freeArea)), 0, low + Pow2(order), lowmem, old(PageState()), word) then
          && n == Pow2(order) && zone.blocks == old(zone.blocks) - {page} && Idle() == old(Idle()) - Run(page, order)
          && MadeMovable(old(zone.blockType[..]), page, order)
        else n == 0 && zone.blocks == old(zone.blocks) && Idle() == old(Idle()) && zone.blockType[..] == old(zone.blockType[..])
    {
      hide FreePages, Core, PcpLinked, Zone.ZonePages, ZoneCounter.Exact, Total, Run, Aligned, Pow2, Passes, MadeMovable;
      CoreShaped();
      var order0 := PageOrder(page);
      WholeMark(low + Pow2(order0));
      var ok := ZoneWatermarkOk(NrFree(zone.freeArea), 0, low + Pow2(order0), lowmem, false, false, PageState(), word);
      if !ok {
        return 0;
      }
      var order := TakeWhole(page);
      Bump(cpu, 0 - Pow2(order));
      if order + 1 >= zone.pageblockOrder {
        MakeMovable(page, order);
      } else {
        NoneMovable(page, order);
      }
      return Pow2(order);
    }

    /** page_order of the head of a free block. */
    method PageOrder(page: nat) returns (order: nat)
      requires Core() && page in zone.blocks
      ensures order == zone.blocks[page]
    {
      hide FreePages, Canonical, Linked, Counted, Zone.ZonePages;
      zone.BlockInZone(page);
      order := zone.memMap[page].priv;
    }

    /** The pageblocks that split_free_page makes movable: those of the run, unless the run is a single page. */
    function MovableBlocks(order: nat): nat
      requires zone.pageblockOrder >= 1
    {
      if order == 0 || order + 1 < zone.pageblockOrder then 0
      else if order < zone.pageblockOrder then 1 else Pow2(order - zone.pageblockOrder)
    }

    /** The pageblock types once a run has been split. */
    ghost predicate MadeMovable(before: seq<nat>, page: nat, order: nat)
      reads zone.blockType
    {
      && zone.pageblockOrder >= 1 && |before| == zone.blockType.Length
      && var s := Shr(page, zone.pageblockOrder);
         forall i :: 0 <= i < |before| ==>
           zone.blockType[i] == if s <= i < s + MovableBlocks(order) then zone.PageblockType(MIGRATE_MOVABLE) else before[i]
    }

    lemma NoneMovable(page: nat, order: nat)
      requires zone.pageblockOrder >= 1 && order + 1 < zone.pageblockOrder
      ensures MadeMovable(zone.blockType[..], page, order)
    {
      hide Shr, Pow2;
    }

    /** Every pageblock that starts in a run becomes movable. */
    method MakeMovable(page: nat, order: nat)
      requires Core() && Run(page, order) <= zone.ZonePages() && order + 1 >= zone.pageblockOrder
      modifies zone.blockType
      ensures Core() && MadeMovable(old(zone.blockType[..]), page, order)
    {
      hide FreePages, Zone.ZonePages, Pow2, Canonical, Linked, Counted, Shr, PcpLinked, PcpShaped, PrivTyped, ZoneCounter.Valid, Run, Zone.PageblockType, MovableBlocks;
      zone.RunInMemMap(page, order);
      ghost var k, n, s := zone.pageblockOrder, 0, Shr(page, zone.pageblockOrder);
      MovableSteps(page, order, 0);
      var p, endPage := page, page + Pow2(order) - 1;
      while p < endPage
        invariant Core() && p == page + n * Pow2(k) && Shr(p, k) == s + n && n <= MovableBlocks(order)
        invariant p < endPage <==> n < MovableBlocks(order)
        invariant forall i :: 0 <= i < zone.blockType.Length ==>
          zone.blockType[i] == if s <= i < s + n then zone.PageblockType(MIGRATE_MOVABLE) else old(zone.blockType[i])
        decreases MovableBlocks(order) - n
      {
        zone.SetPageblockMigratetype(p, MIGRATE_MOVABLE);
        ShrNext(p, k);
        OneLess(n + 1, Pow2(k));
        p := p + Pow2(zone.pageblockOrder);
        n := n + 1;
        MovableSteps(page, order, n);
      }
    }

    lemma MovableSteps(page: nat, order: nat, n: nat)
      requires zone.pageblockOrder >= 1 && order + 1 >= zone.pageblockOrder && n <= MovableBlocks(order)
      ensures page + n * Pow2(zone.pageblockOrder) < page + Pow2(order) - 1 <==> n < MovableBlocks(order)
    {
      var k := zone.pageblockOrder;
      if order >= k {
        Pow2Split(order - k, k);
        Fits(n, Pow2(order - k), Pow2(k));
      } else if n == 1 {
        OneLess(1, Pow2(k));
      }
    }

    /** Free n consecutive held pages one by one. */
    method FreeSpan(cpu: nat, page: nat, n: nat)
      requires Valid() && cpu < |pcp| && Span(page, n) <= Held()
      modifies `pcp, `owner, zone`freeArea, zone`blocks, zone`typ, zone.memMap, stat`vmStat, stat`diff, stat`bound
      ensures Valid() && |pcp| == old(|pcp|) && Idle() == old(Idle()) + Span(page, n)
    {
      hide FreePages, Core, PcpLinked, CountsRight, Accounted, Zone.ZonePages, ZoneCounter.Exact, Total, Span;
      CoreShaped();
      SpanEmpty(page);
      for i := 0 to n
        invariant Valid() && |pcp| == old(|pcp|) && Idle() == old(Idle()) + Span(page, i)
        invariant zone.Geometry()
      {
        SpanStep(page, i, n);
        FreeHotColdPage(cpu, page + i, false);
      }
    }

    lemma IdleInZone()
      requires Core()
      ensures Idle() <= zone.ZonePages()
    {
      hide FreePages, Canonical, Linked, Counted, PcpLinked, PcpShaped;
    }

    /** free_pages_exact: free exactly the pages that alloc_pages_exact handed out. */
    method FreePagesExact(cpu: nat, page: nat, n: nat)
      requires Valid() && cpu < |pcp| && Span(page, n) <= Held()
      modifies `pcp, `owner, zone`freeArea, zone`blocks, zone`typ, zone.memMap, stat`vmStat, stat`diff, stat`bound
      ensures Valid() && |pcp| == old(|pcp|) && Idle() == old(Idle()) + Span(page, n)
    {
      FreeSpan(cpu, page, n);
    }

    /** Once everything is drained, the blocks are the one canonical map of the idle pages: no
        history of allocations and frees leaves a trace in them. */
    lemma DrainedBlocksUnique(b: BlockMap)
      requires Valid() && owner == map[]
      requires Canonical(b, zone.maxOrder) && FreePages(b) == Idle()
      ensures zone.blocks == b
    {
      hide FreePages, Canonical, Linked, Counted, PcpLinked, PcpShaped;
      CanonicalUnique(zone.blocks, b, zone.maxOrder);
    }

    /** alloc_pages_exact, free_pages_exact on any CPU and a drain restore every block, although
        the run was split and came back page by page. */
    method ExactRoundTrip(cpu: nat, cpu': nat, n: nat, mt: nat)
      requires Valid() && owner == map[] && cpu < |pcp| && cpu' < |pcp| && n > 0 && mt < MIGRATE_PCPTYPES
      modifies `pcp, `owner, zone`freeArea, zone`blocks, zone`typ, zone.memMap, zone.blockType, stat`vmStat, stat`diff, stat`bound
      ensures Valid() && owner == map[] && zone.blocks == old(zone.blocks)
    {
      hide FreePages, Core, PcpLinked, CountsRight, Accounted, Zone.ZonePages, ZoneCounter.Exact, Total, Span, GetOrder, Aligned, Pow2, Canonical;
      CoreCanonical();
      IdleInZone();
      ghost var b, idle0 := zone.blocks, Idle();
      var page := AllocPagesExact(cpu, n, mt);
      if page.Some? {
        ExactSets(zone.ZonePages(), idle0, Span(page.value, n), {});
        FreePagesExact(cpu', page.value, n);
      }
      DrainAllPages();
      DrainedBlocksUnique(b);
    }

    lemma CoreCanonical()
      requires Core()
      ensures Canonical(zone.blocks, zone.maxOrder) && zone.Geometry() && PcpShaped(pcp)
    {
      hide FreePages, Canonical, Linked, Counted, PcpLinked;
    }

    /** alloc_pages_exact: a run of sufficient order, of which the unused pages are freed again. */
    method AllocPagesExact(cpu: nat, n: nat, mt: nat) returns (page: Option<nat>)
      requires Valid() && cpu < |pcp| && n > 0 && mt < MIGRATE_PCPTYPES
      modifies `pcp, `owner, zone`freeArea, zone`blocks, zone`typ, zone.memMap, zone.blockType, stat`vmStat, stat`diff, stat`bound
      ensures Valid() && |pcp| == old(|pcp|)
      ensures page.None? <==>
        (n == 1 ==> old(pcp)[cpu].lists[mt] == []) && !Available(old(zone.blocks), old(zone.typ), GetOrder(n))
      ensures page.None? ==> Idle() == old(Idle())
      ensures page.Some? ==>
        && Aligned(page.value, GetOrder(n)) && Span(page.value, n) <= old(Idle())
        && Idle() == old(Idle()) - Span(page.value, n)
      ensures page.Some? && n > 1 ==> exists z1 :: zone.Taken(old(zone.Now()), z1, page.value, GetOrder(n), mt)
      ensures page.Some? && n == 1 ==> exists p, z1 :: TakenFrom(old(pcp)[cpu], p, old(zone.Now()), z1, mt, false, page.value)
    {
      hide FreePages, Core, PcpLinked, CountsRight, Accounted, Zone.ZonePages, ZoneCounter.Exact, Total, Span, Run, GetOrder, Aligned, Pow2, Available, TakenFrom, Zone.Taken;
      CoreShaped();
      OrderOfOne(n);
      IdleInZone();
      ghost var idle0 := Idle();
      var order := GetOrder(n);
      page := BufferedRmqueue(cpu, order, mt, false);
      if page.Some? {
        SpanSplit(page.value, n, order);
        ExactSets(zone.ZonePages(), idle0, Span(page.value, n), Span(page.value + n, Pow2(order) - n));
        FreeSpan(cpu, page.value + n, Pow2(order) - n);
      }
    }

    lemma TailOwned(cpu: nat, t: nat)
      requires Core() && cpu < |pcp| && t < MIGRATE_PCPTYPES && pcp[cpu].lists[t] != []
      ensures var l := pcp[cpu].lists[t]; l[|l| - 1] in owner
    {
      hide FreePages, Canonical, Linked, Counted;
      var l := pcp[cpu].lists[t];
      assert l[|l| - 1] in l;
    }
  }

  /** What moving n pages from one CPU's lists back to the buddy system keeps: only the tails of
      that CPU's lists shrink, and every page stays idle. */
  ghost predicate Drained(pcp0: seq<PerCpuPages>, owner0: map<nat, (nat, nat)>, free0: set<nat>,
                          pcp: seq<PerCpuPages>, owner: map<nat, (nat, nat)>, free: set<nat>, cpu: nat, n: nat)
    requires PcpShaped(pcp0) && PcpShaped(pcp)
  {
    && cpu < |pcp0| == |pcp|
    && (forall c :: 0 <= c < |pcp| && c != cpu ==> pcp[c] == pcp0[c])
    && pcp[cpu] == pcp0[cpu].(lists := pcp[cpu].lists)
    && (forall t :: 0 <= t < MIGRATE_PCPTYPES ==> pcp[cpu].lists[t] <= pcp0[cpu].lists[t])
    && Total(pcp[cpu]) + n == Total(pcp0[cpu])
    && owner.Keys <= owner0.Keys
    && free == free0 + (owner0.Keys - owner.Keys)
    && |free| == |free0| + n
  }

  /** A CPU gave n pages back: each list the tail that the round robin takes off it. */
  ghost predicate Flushed(p0: PerCpuPages, p: PerCpuPages, n: nat) {
    && |p0.lists| == MIGRATE_PCPTYPES == |p.lists| && n <= Total(p0)
    && p == p0.(count := p0.count - n, lists := p.lists)
    && Lengths(p) == Left(Lengths(p0), 0, 0, n)
    && forall t :: 0 <= t < MIGRATE_PCPTYPES ==> p.lists[t] <= p0.lists[t]
  }

  lemma FlushedBy(pcp0: seq<PerCpuPages>, owner0: map<nat, (nat, nat)>, free0: set<nat>,
                  pcp: seq<PerCpuPages>, owner: map<nat, (nat, nat)>, free: set<nat>, cpu: nat, n: nat)
    requires PcpShaped(pcp0) && PcpShaped(pcp) && Drained(pcp0, owner0, free0, pcp, owner, free, cpu, n)
    requires cpu < |pcp0| && n <= Total(pcp0[cpu]) && Lengths(pcp[cpu]) == Left(Lengths(pcp0[cpu]), 0, 0, n)
    ensures Flushed(pcp0[cpu], pcp[cpu].(count := pcp[cpu].count - n), n)
  {
    hide Total, Left, BatchOk;
  }

  lemma DrainStart(pcp: seq<PerCpuPages>, owner: map<nat, (nat, nat)>, free: set<nat>, cpu: nat)
    requires PcpShaped(pcp) && cpu < |pcp|
    ensures Drained(pcp, owner, free, pcp, owner, free, cpu, 0)
  {
  }

  lemma DrainLeft(pcp0: seq<PerCpuPages>, owner0: map<nat, (nat, nat)>, free0: set<nat>,
                  pcp: seq<PerCpuPages>, owner: map<nat, (nat, nat)>, free: set<nat>, cpu: nat, n: nat)
    requires PcpShaped(pcp0) && PcpShaped(pcp)
    requires Drained(pcp0, owner0, free0, pcp, owner, free, cpu, n)
    ensures Total(pcp[cpu]) == Total(pcp0[cpu]) - n
  {
  }

  function PushedPcp(p: PerCpuPages, t: nat, page: nat, cold: bool): PerCpuPages
    requires |p.lists| == MIGRATE_PCPTYPES && t < MIGRATE_PCPTYPES
  {
    p.(count := p.count + 1, lists := p.lists[t := if cold then p.lists[t] + [page] else [page] + p.lists[t]])
  }

  lemma PushedCounts(pcp: seq<PerCpuPages>, c: nat, t: nat, page: nat, cold: bool)
    requires PcpShaped(pcp) && CountsRight(pcp) && c < |pcp| && t < MIGRATE_PCPTYPES
    ensures var l := pcp[c].lists[t];
      var i := if cold then |l| else 0;
      var pcp' := AddCount(SetPcpList(pcp, c, t, l[..i] + [page] + l[i..]), c, 1);
      && CountsRight(pcp') && |pcp'| == |pcp|
      && pcp'[c] == PushedPcp(pcp[c], t, page, cold)
      && forall k :: 0 <= k < |pcp| && k != c ==> pcp'[k] == pcp[k]
  {
    hide BatchOk, Total;
    var l := pcp[c].lists[t];
    var i := if cold then |l| else 0;
    assert l[..i] + [page] + l[i..] == if cold then l + [page] else [page] + l;
  }

  lemma OwnedIsCounted(pcp: seq<PerCpuPages>, owner: map<nat, (nat, nat)>, p: nat)
    requires PcpShaped(pcp) && PcpLinked(pcp, owner) && p in owner
    ensures owner[p].0 < |pcp| && Total(pcp[owner[p].0]) > 0
  {
    assert p in pcp[owner[p].0].lists[owner[p].1];
  }

  /** The list that rmqueue_bulk leaves: pages in the order taken in front, or, for cold requests,
      in reverse order behind. */
  function Filled(l: seq<nat>, taken: seq<nat>, cold: bool): seq<nat> {
    if cold then l + Reverse(taken) else taken + l
  }

  lemma FilledStart(pcp: seq<PerCpuPages>, c: nat, t: nat, cold: bool)
    requires PcpShaped(pcp) && c < |pcp| && t < MIGRATE_PCPTYPES
    ensures SetPcpList(pcp, c, t, Filled(pcp[c].lists[t], [], cold)) == pcp
  {
    assert Filled(pcp[c].lists[t], [], cold) == pcp[c].lists[t];
    assert pcp[c].lists[t := pcp[c].lists[t]] == pcp[c].lists;
  }

  lemma SetTwice(pcp: seq<PerCpuPages>, c: nat, t: nat, l: seq<nat>, l': seq<nat>)
    requires PcpShaped(pcp) && c < |pcp| && t < MIGRATE_PCPTYPES
    ensures SetPcpList(SetPcpList(pcp, c, t, l), c, t, l') == SetPcpList(pcp, c, t, l')
  {
    assert pcp[c].lists[t := l][t := l'] == pcp[c].lists[t := l'];
  }

  ghost predicate InSpan(q: nat, p: nat, n: nat) {
    p <= q < p + n
  }

  /** n consecutive page frames. */
  ghost function Span(p: nat, n: nat): set<nat> {
    set q | p <= q < p + n && InSpan(q, p, n)
  }

  lemma SpanEmpty(p: nat)
    ensures Span(p, 0) == {}
  {
  }

  lemma SpanStep(p: nat, i: nat, n: nat)
    requires i < n
    ensures Span(p, i + 1) == Span(p, i) + {p + i} && p + i !in Span(p, i) && p + i in Span(p, n)
  {
    assert InSpan(p + i, p, n) && InSpan(p + i, p, i + 1);
    assert forall q :: InSpan(q, p, i + 1) <==> InSpan(q, p, i) || q == p + i;
  }

  lemma SpanSplit(p: nat, n: nat, o: nat)
    requires n <= Pow2(o)
    ensures Run(p, o) == Span(p, n) + Span(p + n, Pow2(o) - n) && Span(p, n) !! Span(p + n, Pow2(o) - n)
  {
    InRunIff(p, o);
    assert forall q :: InRun(q, p, o) <==> InSpan(q, p, n) || InSpan(q, p + n, Pow2(o) - n);
  }

  lemma ExactSets(all: set<nat>, idle: set<nat>, used: set<nat>, rest: set<nat>)
    requires used + rest <= idle <= all && used !! rest
    ensures rest <= all - (idle - (used + rest)) && (idle - (used + rest)) + rest == idle - used
    ensures used <= all - (idle - used) && (idle - used) + used == idle
  {
  }

  /** get_order, on a number of pages. */
  function GetOrder(n: nat): (o: nat)
    requires n > 0
    ensures n <= Pow2(o) && (o > 0 ==> Pow2(o - 1) < n)
  {
    if n == 1 then 0 else 1 + GetOrder((n + 1) / 2)
  }

  /** n blocks of m pages, m > 1, end before the last page of N such blocks if and only if n < N. */
  lemma Fits(n: nat, N: nat, m: nat)
    requires m > 1 && n <= N
    ensures n * m < N * m - 1 <==> n < N
  {
    if n < N {
      assert N * m == n * m + (N - n) * m;
      assert (N - n) * m >= m by { OneLess(N - n, m); }
    }
  }

  lemma OrderOfOne(n: nat)
    requires n > 0
    ensures GetOrder(n) == 0 <==> n == 1
  {
  }

  lemma BatchPositive(pcp: seq<PerCpuPages>, c: nat)
    requires PcpShaped(pcp) && c < |pcp|
    ensures pcp[c].batch >= 1
  {
  }

  lemma RefillCounts(pcp: seq<PerCpuPages>, c: nat, t: nat, taken: seq<nat>, cold: bool)
    requires PcpShaped(pcp) && CountsRight(pcp) && c < |pcp| && t < MIGRATE_PCPTYPES && pcp[c].lists[t] == []
    ensures var pcp' := AddCount(SetPcpList(pcp, c, t, Filled([], taken, cold)), c, |taken|);
      CountsRight(pcp') && |pcp'| == |pcp| && (pcp'[c].lists[t] == [] <==> taken == [])
  {
    hide BatchOk, Total;
    if taken != [] { ReverseSnoc(taken, 0); }
    ReverseSnoc(taken, 0);
    assert |Filled([], taken, cold)| == |taken|;
  }

  ghost predicate EndTaken(p0: PerCpuPages, p: PerCpuPages, t: nat, cold: bool, page: nat) {
    && t < |p0.lists| && p0.lists[t] != []
    && var l := p0.lists[t];
       && page == (if cold then l[|l| - 1] else l[0])
       && p == p0.(count := p0.count - 1, lists := p0.lists[t := if cold then l[..|l| - 1] else l[1..]])
  }

  ghost predicate RefilledBy(p0: PerCpuPages, p: PerCpuPages, t: nat, cold: bool, page: nat, taken: seq<nat>) {
    && t < |p0.lists| && 0 < |taken| <= p0.batch && page == taken[0]
    && p == p0.(count := p0.count + |taken| - 1, lists := p0.lists[t := if cold then Reverse(taken[1..]) else taken[1..]])
  }

  /** A hot page that is freed is the next one handed out to a hot request, and a cold one to a cold request;
      taking it restores the list. */
  lemma FreedComesBack(p0: PerCpuPages, p: PerCpuPages, t: nat, page: nat, cold: bool, taken: nat)
    requires |p0.lists| == MIGRATE_PCPTYPES && t < MIGRATE_PCPTYPES && EndTaken(PushedPcp(p0, t, page, cold), p, t, cold, taken)
    ensures taken == page && p == p0
  {
    var l := p0.lists[t];
    assert (l + [page])[..|l|] == l && ([page] + l)[1..] == l;
    assert p0.lists[t := l] == p0.lists;
    assert p.lists == p0.lists;
  }

  /** A hot page that is freed is the last one handed out to cold requests, and the other way round. */
  lemma FreedStaysLongest(p0: PerCpuPages, p: PerCpuPages, t: nat, page: nat, cold: bool, taken: nat)
    requires |p0.lists| == MIGRATE_PCPTYPES && t < MIGRATE_PCPTYPES && p0.lists[t] != []
    requires EndTaken(PushedPcp(p0, t, page, cold), p, t, !cold, taken)
    ensures taken == (if cold then p0.lists[t][0] else p0.lists[t][|p0.lists[t]| - 1]) && page in p.lists[t]
  {
    var l := p0.lists[t];
    if cold {
      assert (l + [page])[1..] == l[1..] + [page];
    } else {
      assert ([page] + l)[..|l|] == [page] + l[..|l| - 1];
    }
  }

  /** After a refill requests of the same kind get the pages in the order in which they left the zone. */
  lemma RefillOrder(p0: PerCpuPages, p: PerCpuPages, p': PerCpuPages, t: nat, cold: bool, page: nat, taken: seq<nat>, next: nat)
    requires RefilledBy(p0, p, t, cold, page, taken) && |taken| > 1 && EndTaken(p, p', t, cold, next)
    ensures page == taken[0] && next == taken[1]
    ensures p'.lists[t] == if cold then Reverse(taken[2..]) else taken[2..]
  {
    Last(taken[1..]);
    assert taken[1..][1..] == taken[2..];
  }

  lemma Last(t: seq<nat>)
    requires t != []
    ensures Reverse(t) == Reverse(t[1..]) + [t[0]] && |Reverse(t)| == |t|
  {
  }

  /** The steps of TakePage on the lists, the refill included. */
  lemma TakenBy(pcp0: seq<PerCpuPages>, pcp: seq<PerCpuPages>, c: nat, t: nat, cold: bool, page: nat, taken: seq<nat>)
    requires PcpShaped(pcp0) && c < |pcp0| && t < MIGRATE_PCPTYPES && |taken| <= pcp0[c].batch
    requires var pcp1 := if pcp0[c].lists[t] != [] then pcp0
                         else AddCount(SetPcpList(pcp0, c, t, Filled([], taken, cold)), c, |taken|);
      var l := pcp1[c].lists[t];
      && l != [] && var i := if cold then |l| - 1 else 0;
      page == l[i] && pcp == AddCount(SetPcpList(pcp1, c, t, l[..i] + l[i + 1..]), c, -1)
    ensures |pcp| == |pcp0|
    ensures if pcp0[c].lists[t] != [] then EndTaken(pcp0[c], pcp[c], t, cold, page) else RefilledBy(pcp0[c], pcp[c], t, cold, page, taken)
    ensures forall k :: 0 <= k < |pcp| && k != c ==> pcp[k] == pcp0[k]
  {
    hide Total, BatchOk, Reverse;
    if pcp0[c].lists[t] != [] {
      RestOf(pcp0[c].lists[t], cold);
    } else {
      var l := Filled([], taken, cold);
      if taken != [] {
        Last(taken);
        RestOf(l, cold);
        assert page == taken[0] && (if cold then l[..|l| - 1] else l[1..]) == if cold then Reverse(taken[1..]) else taken[1..];
        assert RefilledBy(pcp0[c], pcp[c], t, cold, page, taken);
      } else {
        NoneReversed();
        assert false;
      }
    }
  }

  lemma RefilledOthers(pcp: seq<PerCpuPages>, c: nat, t: nat, taken: seq<nat>, cold: bool)
    requires PcpShaped(pcp) && c < |pcp| && t < MIGRATE_PCPTYPES
    ensures var r := AddCount(SetPcpList(pcp, c, t, Filled([], taken, cold)), c, |taken|);
      |r| == |pcp| && forall k :: 0 <= k < |pcp| && k != c ==> r[k] == pcp[k]
  {
  }

  lemma NoneReversed()
    ensures Reverse<nat>([]) == []
  {
  }

  lemma RestOf(l: seq<nat>, cold: bool)
    requires l != []
    ensures var i := if cold then |l| - 1 else 0; l[..i] + l[i + 1..] == if cold then l[..|l| - 1] else l[1..]
  {
  }

  lemma RemovedCounts(pcp: seq<PerCpuPages>, c: nat, t: nat, i: nat)
    requires PcpShaped(pcp) && CountsRight(pcp) && c < |pcp| && t < MIGRATE_PCPTYPES && i < |pcp[c].lists[t]|
    ensures var l := pcp[c].lists[t];
      var pcp' := AddCount(SetPcpList(pcp, c, t, l[..i] + l[i + 1..]), c, -1);
      CountsRight(pcp') && |pcp'| == |pcp|
  {
    hide BatchOk, Total;
  }

  lemma FilledStep(l: seq<nat>, taken: seq<nat>, cold: bool, p: nat)
    ensures var cur := Filled(l, taken, cold);
      var i := if cold then |l| else |taken|;
      |cur| == |l| + |taken| && cur[..i] + [p] + cur[i..] == Filled(l, taken + [p], cold)
  {
    ReverseSnoc(taken, p);
    var cur := Filled(l, taken, cold);
    if cold {
      assert cur[..|l|] == l && cur[|l|..] == Reverse(taken);
      assert l + [p] + Reverse(taken) == l + ([p] + Reverse(taken));
    } else {
      assert cur[..|taken|] == taken && cur[|taken|..] == l;
    }
  }

  /** A run of free pages leaves the buddy system. */
  lemma TakenRun(owner: map<nat, (nat, nat)>, free: set<nat>, all: set<nat>, run: set<nat>)
    requires run <= free <= all && free !! owner.Keys
    ensures |free - run| + |run| == |free| && run <= all - ((free - run) + owner.Keys)
    ensures free - run <= all && (free - run) !! owner.Keys
  {
    assert free == (free - run) + run;
  }

  /** A run of held pages is disjoint from what is idle; freeing it adds its size. */
  lemma HeldRun(owner: map<nat, (nat, nat)>, free: set<nat>, all: set<nat>, run: set<nat>)
    requires run <= all - (free + owner.Keys)
    ensures run <= all && run !! free && run !! owner.Keys && |free + run| == |free| + |run|
  {
  }

  /** After a drain pcp.count is right again once it has caught up, and every page is still idle. */
  lemma DrainedCounts(pcp0: seq<PerCpuPages>, owner0: map<nat, (nat, nat)>, free0: set<nat>,
                      pcp: seq<PerCpuPages>, owner: map<nat, (nat, nat)>, free: set<nat>, cpu: nat, n: nat)
    requires PcpShaped(pcp0) && PcpShaped(pcp) && CountsRight(pcp0) && cpu < |pcp|
    requires Drained(pcp0, owner0, free0, pcp, owner, free, cpu, n)
    ensures CountsRight(AddCount(pcp, cpu, 0 - n)) && |free| == |free0| + n
    ensures free + owner.Keys == free0 + owner0.Keys
  {
    hide Total, BatchOk;
  }

  lemma DrainedKeeps(pcp0: seq<PerCpuPages>, owner0: map<nat, (nat, nat)>, free0: set<nat>,
                     pcp: seq<PerCpuPages>, owner: map<nat, (nat, nat)>, free: set<nat>, cpu: nat, n: nat)
    requires PcpShaped(pcp0) && PcpShaped(pcp)
    requires Drained(pcp0, owner0, free0, pcp, owner, free, cpu, n)
    ensures cpu < |pcp| == |pcp0| && owner.Keys <= owner0.Keys
    ensures forall c :: 0 <= c < |pcp| && c != cpu ==> pcp[c] == pcp0[c]
    ensures pcp[cpu] == pcp0[cpu].(lists := pcp[cpu].lists)
  {
  }

  /** One page leaves the tail of a list for the buddy system. */
  lemma DrainStep(pcp0: seq<PerCpuPages>, owner0: map<nat, (nat, nat)>, free0: set<nat>,
                  pcp: seq<PerCpuPages>, owner: map<nat, (nat, nat)>, free: set<nat>, cpu: nat, n: nat, t: nat)
    requires PcpShaped(pcp0) && PcpShaped(pcp) && free0 !! owner0.Keys
    requires Drained(pcp0, owner0, free0, pcp, owner, free, cpu, n)
    requires t < MIGRATE_PCPTYPES && |pcp[cpu].lists[t]| > 0
    requires pcp[cpu].lists[t][|pcp[cpu].lists[t]| - 1] in owner
    ensures var l := pcp[cpu].lists[t];
      var p := l[|l| - 1];
      Drained(pcp0, owner0, free0, SetPcpList(pcp, cpu, t, l[..|l| - 1]), owner - {p}, free + {p}, cpu, n + 1)
  {
    hide Total, BatchOk;
    var l := pcp[cpu].lists[t];
    var p := l[|l| - 1];
    assert (owner - {p}).Keys == owner.Keys - {p};
    DrainSets(owner0.Keys, owner.Keys, free0, free, p);
    DrainLists(pcp0, pcp, cpu, t);
  }

  lemma DrainSets(owned0: set<nat>, owned: set<nat>, free0: set<nat>, free: set<nat>, p: nat)
    requires free0 !! owned0 && owned <= owned0 && free == free0 + (owned0 - owned) && p in owned
    ensures free + {p} == free0 + (owned0 - (owned - {p})) && |free + {p}| == |free| + 1
  {
    assert p !in free;
  }

  lemma NoneCut(lists: seq<seq<nat>>, t: nat)
    requires t < |lists|
    ensures lists[t := lists[t][..|lists[t]|]] == lists
  {
    assert lists[t][..|lists[t]|] == lists[t];
  }

  lemma OneCut(lists: seq<seq<nat>>, t: nat, n: nat)
    requires t < |lists| && n < |lists[t]|
    ensures var cut := lists[t := lists[t][..|lists[t]| - n]];
      && cut[t][|cut[t]| - 1] == lists[t][|lists[t]| - n - 1]
      && cut[t := cut[t][..|cut[t]| - 1]] == lists[t := lists[t][..|lists[t]| - (n + 1)]]
  {
    var l := lists[t];
    assert l[..|l| - n][..|l| - n - 1] == l[..|l| - (n + 1)];
  }

  lemma DrainLists(pcp0: seq<PerCpuPages>, pcp: seq<PerCpuPages>, cpu: nat, t: nat)
    requires PcpShaped(pcp0) && PcpShaped(pcp) && cpu < |pcp0| == |pcp| && t < MIGRATE_PCPTYPES
    requires forall u :: 0 <= u < MIGRATE_PCPTYPES ==> pcp[cpu].lists[u] <= pcp0[cpu].lists[u]
    requires |pcp[cpu].lists[t]| > 0
    ensures var pcp' := SetPcpList(pcp, cpu, t, pcp[cpu].lists[t][..|pcp[cpu].lists[t]| - 1]);
      forall u :: 0 <= u < MIGRATE_PCPTYPES ==> pcp'[cpu].lists[u] <= pcp0[cpu].lists[u]
  {
  }

  lemma SinglePage(p: nat)
    ensures Run(p, 0) == {p} && Aligned(p, 0)
  {
    InRunIff(p, 0);
  }
}
