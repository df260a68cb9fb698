/** zone->free_area[]: per order one free list for each migrate type and the block count. */
module FreeLists {
  import opened Bits
  import opened Blocks
  import opened BlockCounts
  import opened Sequences

  const MIGRATE_UNMOVABLE: nat := 0
  const MIGRATE_RECLAIMABLE: nat := 1
  const MIGRATE_MOVABLE: nat := 2
  const MIGRATE_PCPTYPES: nat := 3
  const MIGRATE_RESERVE: nat := 3
  const MIGRATE_ISOLATE: nat := 4
  const MIGRATE_TYPES: nat := 5

  /** fallbacks[][]: each row names three types; its fourth entry is left at zero. */
  const FALLBACKS: seq<seq<nat>> := [
    [MIGRATE_RECLAIMABLE, MIGRATE_MOVABLE, MIGRATE_RESERVE, 0],
    [MIGRATE_UNMOVABLE, MIGRATE_MOVABLE, MIGRATE_RESERVE, 0],
    [MIGRATE_RECLAIMABLE, MIGRATE_UNMOVABLE, MIGRATE_RESERVE, 0],
    [MIGRATE_RESERVE, MIGRATE_RESERVE, MIGRATE_RESERVE, 0],
    [0, 0, 0, 0]]

  function Fallback(mt: nat, i: nat): (t: nat)
    requires mt < MIGRATE_TYPES && i < MIGRATE_TYPES - 1
    ensures t < MIGRATE_ISOLATE
  {
    FALLBACKS[mt][i]
  }

  datatype FreeArea = FreeArea(lists: seq<seq<nat>>, nrFree: int)

  type FreeAreas = seq<FreeArea>

  /** list_del: the list that links p loses it; a list that does not is left as it is. */
  function Without(s: seq<nat>, p: nat): (r: seq<nat>)
    ensures forall x :: x in r <==> x in s && x != p
    ensures p !in s ==> r == s
    ensures Distinct(s) ==> Distinct(r)
  {
    if s == [] then []
    else if s[0] == p then Without(s[1..], p)
    else
      var r := [s[0]] + Without(s[1..], p);
      assert p !in s ==> p !in s[1..];
      assert Distinct(s) ==> s[0] !in s[1..];
      r
  }

  predicate Shaped(fa: FreeAreas, maxOrder: nat) {
    |fa| == maxOrder && forall o :: 0 <= o < |fa| ==> |fa[o].lists| == MIGRATE_TYPES
  }

  /** Every free block is linked once, on the list of its order and of its recorded type, and
      the lists link nothing else. */
  ghost predicate Linked(fa: FreeAreas, b: BlockMap, typ: map<nat, nat>, maxOrder: nat) {
    && Shaped(fa, maxOrder)
    && typ.Keys == b.Keys
    && (forall h :: h in typ ==> typ[h] < MIGRATE_TYPES)
    && (forall o: nat, t: nat :: o < maxOrder && t < MIGRATE_TYPES ==> Distinct(fa[o].lists[t]))
    && (forall o: nat, t: nat, h: nat {:trigger h in fa[o].lists[t]} {:trigger typ[h], fa[o].lists[t]} :: o < maxOrder && t < MIGRATE_TYPES ==>
          (h in fa[o].lists[t] <==> IsBlock(b, h, o) && typ[h] == t))
  }

  /** nr_free of every order is the number of blocks of that order. */
  ghost predicate Counted(fa: FreeAreas, b: BlockMap, maxOrder: nat) {
    |fa| == maxOrder && forall o :: 0 <= o < maxOrder ==> fa[o].nrFree == |HeadsOfOrder(b, o)|
  }

  function AddNr(fa: FreeAreas, o: nat, d: int): (r: FreeAreas)
    requires o < |fa|
    ensures |r| == |fa| && forall k :: 0 <= k < |fa| ==> r[k].lists == fa[k].lists
  {
    fa[o := fa[o].(nrFree := fa[o].nrFree + d)]
  }

  function SetList(fa: FreeAreas, o: nat, t: nat, l: seq<nat>): (r: FreeAreas)
    requires o < |fa| && t < |fa[o].lists|
    ensures |r| == |fa| && forall k :: 0 <= k < |fa| ==> r[k].nrFree == fa[k].nrFree && |r[k].lists| == |fa[k].lists|
  {
    fa[o := fa[o].(lists := fa[o].lists[t := l])]
  }

  /** list_add or list_add_tail on one free list. */
  function Push(fa: FreeAreas, o: nat, t: nat, h: nat, tail: bool): (r: FreeAreas)
    requires o < |fa| && t < |fa[o].lists|
    ensures |r| == |fa| && forall k :: 0 <= k < |fa| ==> r[k].nrFree == fa[k].nrFree && |r[k].lists| == |fa[k].lists|
  {
    SetList(fa, o, t, if tail then fa[o].lists[t] + [h] else [h] + fa[o].lists[t])
  }

  /** list_del of a block head of order o: the caller does not know the list's type. */
  function Delete(fa: FreeAreas, o: nat, h: nat): (r: FreeAreas)
    requires o < |fa|
    ensures |r| == |fa| && forall k :: 0 <= k < |fa| ==> r[k].nrFree == fa[k].nrFree && |r[k].lists| == |fa[k].lists|
  {
    fa[o := fa[o].(lists := seq(|fa[o].lists|, t requires 0 <= t < |fa[o].lists| => Without(fa[o].lists[t], h)))]
  }

  lemma PushLinked(fa: FreeAreas, b: BlockMap, typ: map<nat, nat>, maxOrder: nat, o: nat, t: nat, h: nat, tail: bool)
    requires Linked(fa, b, typ, maxOrder) && h !in b && o < maxOrder && t < MIGRATE_TYPES
    ensures Linked(Push(fa, o, t, h, tail), b[h := o], typ[h := t], maxOrder)
  {
    assert !IsBlock(b, h, o);
    assert h !in fa[o].lists[t];
  }

  lemma DeleteLinked(fa: FreeAreas, b: BlockMap, typ: map<nat, nat>, maxOrder: nat, h: nat)
    requires Linked(fa, b, typ, maxOrder) && h in b && b[h] < maxOrder
    ensures Linked(Delete(fa, b[h], h), b - {h}, typ - {h}, maxOrder)
  {
  }

  /** Linking a new block and counting it. */
  lemma PushCounted(fa: FreeAreas, b: BlockMap, typ: map<nat, nat>, maxOrder: nat, o: nat, t: nat, h: nat, tail: bool)
    requires Linked(fa, b, typ, maxOrder) && Counted(fa, b, maxOrder)
    requires h !in b && o < maxOrder && t < MIGRATE_TYPES
    ensures var fa' := AddNr(Push(fa, o, t, h, tail), o, 1);
      Linked(fa', b[h := o], typ[h := t], maxOrder) && Counted(fa', b[h := o], maxOrder)
  {
    PushLinked(fa, b, typ, maxOrder, o, t, h, tail);
    AddNrLinked(Push(fa, o, t, h, tail), b[h := o], typ[h := t], maxOrder, o, 1);
    CountsAdd(b, h, o, maxOrder);
    var nr := Counts(b, maxOrder);
    var nr' := Counts(b[h := o], maxOrder);
    assert forall k: nat :: k < maxOrder ==> nr'[k] == nr[o := nr[o] + 1][k];
  }

  /** Unlinking a block and no longer counting it. */
  lemma DeleteCounted(fa: FreeAreas, b: BlockMap, typ: map<nat, nat>, maxOrder: nat, h: nat)
    requires Linked(fa, b, typ, maxOrder) && Counted(fa, b, maxOrder) && h in b && b[h] < maxOrder
    ensures var fa' := AddNr(Delete(fa, b[h], h), b[h], -1);
      Linked(fa', b - {h}, typ - {h}, maxOrder) && Counted(fa', b - {h}, maxOrder)
  {
    DeleteLinked(fa, b, typ, maxOrder, h);
    AddNrLinked(Delete(fa, b[h], h), b - {h}, typ - {h}, maxOrder, b[h], -1);
    CountsRemove(b, h, maxOrder);
    var nr := Counts(b, maxOrder);
    var nr' := Counts(b - {h}, maxOrder);
    assert forall k: nat :: k < maxOrder ==> nr'[k] == nr[b[h] := nr[b[h]] - 1][k];
  }

  lemma AddNrLinked(fa: FreeAreas, b: BlockMap, typ: map<nat, nat>, maxOrder: nat, o: nat, d: int)
    requires Linked(fa, b, typ, maxOrder) && o < maxOrder
    ensures Linked(AddNr(fa, o, d), b, typ, maxOrder)
  {
    var fa' := AddNr(fa, o, d);
    assert forall k: nat :: k < maxOrder ==> fa'[k].lists == fa[k].lists;
  }

  /** Counting is right again once a block whose order was decremented early is unlinked. */
  lemma CountedEarly(fa: FreeAreas, fa': FreeAreas, b: BlockMap, maxOrder: nat, h: nat)
    requires Counted(fa, b, maxOrder) && h in b && b[h] < maxOrder && |fa'| == maxOrder
    requires forall o :: 0 <= o < maxOrder ==> fa'[o].nrFree == fa[o].nrFree - (if o == b[h] then 1 else 0)
    ensures Counted(fa', b - {h}, maxOrder)
  {
    CountsRemove(b, h, maxOrder);
    var nr := Counts(b, maxOrder);
    var nr' := Counts(b - {h}, maxOrder);
    assert forall k: nat :: k < maxOrder ==> nr'[k] == nr[b[h] := nr[b[h]] - 1][k];
  }

  /** list_del and list_add of one block onto the list of another type. */
  lemma MoveLinked(fa: FreeAreas, b: BlockMap, typ: map<nat, nat>, maxOrder: nat, h: nat, t: nat)
    requires Linked(fa, b, typ, maxOrder) && h in b && b[h] < maxOrder && t < MIGRATE_TYPES
    ensures Linked(Push(Delete(fa, b[h], h), b[h], t, h, false), b, typ[h := t], maxOrder)
  {
    DeleteLinked(fa, b, typ, maxOrder, h);
    PushLinked(Delete(fa, b[h], h), b - {h}, typ - {h}, maxOrder, b[h], t, h, false);
    assert (b - {h})[h := b[h]] == b;
    assert (typ - {h})[h := t] == typ[h := t];
  }

  // ---------------------------------------------------------------- what nr_free means

  lemma {:induction false} DistinctCardinality(s: seq<nat>)
    requires Distinct(s)
    ensures |Elements(s)| == |s|
  {
    if |s| > 0 {
      DistinctCardinality(s[1..]);
      assert Elements(s) == {s[0]} + Elements(s[1..]);
      assert s[0] !in s[1..];
    }
  }

  function TotalLength(lists: seq<seq<nat>>, n: nat): nat
    requires n <= |lists|
  {
    if n == 0 then 0 else TotalLength(lists, n - 1) + |lists[n - 1]|
  }

  /** The blocks of order o on the lists of the first n types. */
  ghost function HeadsBelow(b: BlockMap, typ: map<nat, nat>, o: nat, n: nat): set<nat>
    requires typ.Keys == b.Keys
  {
    set h | h in b && IsBlock(b, h, o) && typ[h] < n
  }

  lemma {:induction false} HeadsBelowCount(fa: FreeAreas, b: BlockMap, typ: map<nat, nat>, maxOrder: nat,
                                           o: nat, n: nat)
    requires Linked(fa, b, typ, maxOrder) && o < maxOrder && n <= MIGRATE_TYPES
    ensures |HeadsBelow(b, typ, o, n)| == TotalLength(fa[o].lists, n)
    decreases n
  {
    if n > 0 {
      HeadsBelowCount(fa, b, typ, maxOrder, o, n - 1);
      var l := fa[o].lists[n - 1];
      DistinctCardinality(l);
      assert HeadsBelow(b, typ, o, n) == HeadsBelow(b, typ, o, n - 1) + Elements(l);
      assert HeadsBelow(b, typ, o, n - 1) !! Elements(l);
    } else {
      assert HeadsBelow(b, typ, o, n) == {};
    }
  }

  /** nr_free[o] is the total length of the order's free lists over all migrate types. */
  lemma NrFreeIsTotalLength(fa: FreeAreas, b: BlockMap, typ: map<nat, nat>, maxOrder: nat, o: nat)
    requires Linked(fa, b, typ, maxOrder) && Counted(fa, b, maxOrder) && o < maxOrder
    ensures fa[o].nrFree == TotalLength(fa[o].lists, MIGRATE_TYPES)
  {
    HeadsBelowCount(fa, b, typ, maxOrder, o, MIGRATE_TYPES);
    assert HeadsOfOrder(b, o) == HeadsBelow(b, typ, o, MIGRATE_TYPES);
  }

  /** The per-order counts, as the watermark check reads them. */
  function NrFree(fa: FreeAreas): (nr: seq<int>)
    ensures |nr| == |fa|
    ensures forall o :: 0 <= o < |fa| ==> nr[o] == fa[o].nrFree
  {
    seq(|fa|, o requires 0 <= o < |fa| => fa[o].nrFree)
  }

  /** Summing nr_free[o] * 2^o counts every free page exactly once. */
  lemma NrFreeCountsPages(fa: FreeAreas, b: BlockMap, maxOrder: nat)
    requires Canonical(b, maxOrder) && Counted(fa, b, maxOrder)
    ensures PagesFrom(NrFree(fa), 0) == |FreePages(b)|
  {
    assert NrFree(fa) == Counts(b, maxOrder);
    FreePagesCount(b, maxOrder);
  }
}
