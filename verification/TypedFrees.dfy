/** The types of free blocks under a sequence of frees: a merged block has the type of the page that was freed
    last among its pages, and a block that no freed page joined keeps its type. */
module TypedFrees {
  import opened Bits
  import opened Blocks
  import opened Options
  import opened Zones

  /** The free blocks of a zone and the type of the list that links each. */
  datatype Store = Store(blocks: BlockMap, typ: map<nat, nat>)

  /** A run of order o is freed with type mt. */
  ghost function FreeTyped(z: Store, p: nat, o: nat, mt: nat, maxOrder: nat): Store {
    var b := Coalesce(z.blocks, p, o, maxOrder);
    Store(b, map h | h in b :: if InRun(p, h, b[h]) then mt else if h in z.typ then z.typ[h] else mt)
  }

  function RecordOf(record: map<nat, nat>, p: nat): nat {
    if p in record then record[p] else 0
  }

  /** Single pages are freed one after the other, each with its recorded type. */
  ghost function FreeAll(z: Store, pages: seq<nat>, record: map<nat, nat>, maxOrder: nat): Store {
    if pages == [] then z
    else
      var n := |pages| - 1;
      FreeTyped(FreeAll(z, pages[..n], record, maxOrder), pages[n], 0, RecordOf(record, pages[n]), maxOrder)
  }

  lemma FreeAllNext(z: Store, pages: seq<nat>, p: nat, record: map<nat, nat>, maxOrder: nat)
    ensures FreeAll(z, pages + [p], record, maxOrder) ==
      FreeTyped(FreeAll(z, pages, record, maxOrder), p, 0, RecordOf(record, p), maxOrder)
  {
    assert (pages + [p])[..|pages|] == pages;
  }

  /** A run stays inside the runs that it grows into. */
  lemma {:induction false} InRunHead(p: nat, o: nat, k: nat)
    requires Aligned(p, o) && o <= k
    ensures Aligned(RunHead(p, o, k), k) && InRun(p, RunHead(p, o, k), k)
    decreases k
  {
    if k > o {
      InRunHead(p, o, k - 1);
      Halves(RunHead(p, o, k - 1), k - 1);
    }
  }

  /** What __free_one_page leaves is what FreeTyped says. */
  lemma FreedIs(z: Store, z': Store, p: nat, o: nat, mt: nat, maxOrder: nat, head: nat, top: nat)
    requires Canonical(z'.blocks, maxOrder) && z'.blocks == Coalesce(z.blocks, p, o, maxOrder) && z'.typ.Keys == z'.blocks.Keys
    requires Aligned(p, o) && o <= top && head == RunHead(p, o, top) && IsBlock(z'.blocks, head, top)
    requires head in z'.typ && z'.typ[head] == mt
    requires forall h :: h in z'.blocks && h != head ==> h in z.typ && z'.typ[h] == z.typ[h]
    ensures z' == FreeTyped(z, p, o, mt, maxOrder)
  {
    hide Merged, Coalesce, RunHead, Aligned, Pow2;
    InRunHead(p, o, top);
    var t := FreeTyped(z, p, o, mt, maxOrder).typ;
    forall h | h in z'.blocks
      ensures t[h] == z'.typ[h]
    {
      if h != head {
        BlocksApart(z'.blocks, maxOrder, h, head);
      }
    }
    assert t == z'.typ;
  }

  /** Freeing a run keeps a store canonical and typed, and adds the run's pages. */
  lemma FreeTypedOk(z: Store, p: nat, o: nat, mt: nat, maxOrder: nat)
    requires Canonical(z.blocks, maxOrder) && o < maxOrder && Aligned(p, o) && Run(p, o) !! FreePages(z.blocks)
    ensures var z' := FreeTyped(z, p, o, mt, maxOrder);
      Canonical(z'.blocks, maxOrder) && z'.typ.Keys == z'.blocks.Keys && FreePages(z'.blocks) == FreePages(z.blocks) + Run(p, o)
  {
    CoalesceCanonical(z.blocks, p, o, maxOrder);
  }

  /** Blocks that the freed run does not join stay as they are. */
  lemma {:induction false} CoalesceOthers(b: BlockMap, h: nat, o: nat, maxOrder: nat, q: nat, k: nat)
    requires Aligned(h, o) && InRun(q, h, o) && k in Coalesce(b, h, o, maxOrder)
    ensures InRun(q, k, Coalesce(b, h, o, maxOrder)[k]) || IsBlock(b, k, Coalesce(b, h, o, maxOrder)[k])
    decreases maxOrder - o
  {
    if o + 1 < maxOrder && IsBlock(b, Buddy(h, o), o) {
      Halves(h, o);
      assert Pow2(o + 1) == 2 * Pow2(o);
      assert InRun(q, Lower(h, o), o + 1);
      CoalesceOthers(b - {Buddy(h, o)}, Lower(h, o), o + 1, maxOrder, q, k);
    }
  }

  /** The page freed last among those of the block of order o at h. */
  ghost function LastIn(pages: seq<nat>, h: nat, o: nat): Option<nat> {
    if pages == [] then None
    else if InRun(pages[|pages| - 1], h, o) then Some(pages[|pages| - 1])
    else LastIn(pages[..|pages| - 1], h, o)
  }

  /** The type of every block after any number of frees: that of the last page freed among its pages, or the
      old type of the same block if none was. */
  lemma {:induction false} LastFreed(z: Store, pages: seq<nat>, record: map<nat, nat>, maxOrder: nat, h: nat)
    requires z.typ.Keys == z.blocks.Keys && h in FreeAll(z, pages, record, maxOrder).blocks
    ensures var r := FreeAll(z, pages, record, maxOrder);
      && r.typ.Keys == r.blocks.Keys
      && var last := LastIn(pages, h, r.blocks[h]);
         if last.Some? then r.typ[h] == RecordOf(record, last.value)
         else IsBlock(z.blocks, h, r.blocks[h]) && r.typ[h] == z.typ[h]
    decreases |pages|
  {
    hide Coalesce, Pow2, RecordOf, Aligned, InRun;
    if pages != [] {
      var n := |pages| - 1;
      var z1, p := FreeAll(z, pages[..n], record, maxOrder), pages[n];
      SingleRun(p);
      CoalesceOthers(z1.blocks, p, 0, maxOrder, p, h);
      if !InRun(p, h, FreeAll(z, pages, record, maxOrder).blocks[h]) {
        LastFreed(z, pages[..n], record, maxOrder, h);
      }
    }
  }

  lemma SingleRun(p: nat)
    ensures InRun(p, p, 0) && Aligned(p, 0)
  {
  }
}
