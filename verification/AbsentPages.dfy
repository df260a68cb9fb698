/** __absent_pages_in_range: how many page frames of a range no memory region covers
    (Linux/page_alloc.c). */
module AbsentPages {
  import opened Integers
  import opened Options

  /** One entry of early_node_map: node id and the frames start .. end. */
  datatype Region = Region(nid: nat, start: nat, end: nat)

  /** A region counts for its own node, and for the request for all nodes (nid == MAX_NUMNODES). */
  predicate Matches(r: Region, nid: Option<nat>) {
    nid.None? || r.nid == nid.value
  }

  /** The regions of a node are sorted and disjoint. */
  ghost predicate Sorted(nodeMap: seq<Region>, nid: Option<nat>) {
    && (forall i :: 0 <= i < |nodeMap| && Matches(nodeMap[i], nid) ==> nodeMap[i].start <= nodeMap[i].end)
    && (forall i, j :: 0 <= i < j < |nodeMap| && Matches(nodeMap[i], nid) && Matches(nodeMap[j], nid) ==>
          nodeMap[i].end <= nodeMap[j].start)
  }

  ghost predicate Covered(nodeMap: seq<Region>, nid: Option<nat>, p: nat) {
    exists i :: 0 <= i < |nodeMap| && Matches(nodeMap[i], nid) && nodeMap[i].start <= p < nodeMap[i].end
  }

  /** A node's own regions cover its frames, and the request for all nodes asks for the regions of every node. */
  lemma CoveredByNode(nodeMap: seq<Region>, n: nat, p: nat)
    ensures Covered(nodeMap, Some(n), p) <==> exists i :: 0 <= i < |nodeMap| && nodeMap[i].nid == n && nodeMap[i].start <= p < nodeMap[i].end
    ensures Covered(nodeMap, None, p) <==> exists k :: Covered(nodeMap, Some(k), p)
  {
    if Covered(nodeMap, None, p) {
      var i :| 0 <= i < |nodeMap| && nodeMap[i].start <= p < nodeMap[i].end;
      assert Covered(nodeMap, Some(nodeMap[i].nid), p);
    }
  }

  ghost predicate HasRegion(nodeMap: seq<Region>, nid: Option<nat>) {
    exists i :: 0 <= i < |nodeMap| && Matches(nodeMap[i], nid)
  }

  /** The number of frames in lo .. hi that no region of the node covers. */
  ghost function Holes(nodeMap: seq<Region>, nid: Option<nat>, lo: nat, hi: nat): nat
    decreases hi
  {
    if hi <= lo then 0 else Holes(nodeMap, nid, lo, hi - 1) + if Covered(nodeMap, nid, hi - 1) then 0 else 1
  }

  lemma {:induction false} HolesInGap(nodeMap: seq<Region>, nid: Option<nat>, lo: nat, a: nat, b: nat)
    requires lo <= a <= b && forall p: nat :: a <= p < b ==> !Covered(nodeMap, nid, p)
    ensures Holes(nodeMap, nid, lo, b) == Holes(nodeMap, nid, lo, a) + (b - a)
    decreases b
  {
    if a < b { HolesInGap(nodeMap, nid, lo, a, b - 1); }
  }

  lemma {:induction false} HolesInRegion(nodeMap: seq<Region>, nid: Option<nat>, lo: nat, a: nat, b: nat)
    requires lo <= a <= b && forall p: nat :: a <= p < b ==> Covered(nodeMap, nid, p)
    ensures Holes(nodeMap, nid, lo, b) == Holes(nodeMap, nid, lo, a)
    decreases b
  {
    if a < b { HolesInRegion(nodeMap, nid, lo, a, b - 1); }
  }

  /** first_active_region_index_in_nid and next_active_region_index_in_nid: the first region of
      the node at index `from` or later. */
  method NextRegionIndex(nodeMap: seq<Region>, nid: Option<nat>, from: nat) returns (i: Option<nat>)
    ensures i.None? ==> forall k :: from <= k < |nodeMap| ==> !Matches(nodeMap[k], nid)
    ensures i.Some? ==> from <= i.value < |nodeMap| && Matches(nodeMap[i.value], nid)
    ensures i.Some? ==> forall k :: from <= k < i.value ==> !Matches(nodeMap[k], nid)
  {
    var k := from;
    while k < |nodeMap|
      invariant from <= k
      invariant forall j :: from <= j < k && j < |nodeMap| ==> !Matches(nodeMap[j], nid)
    {
      if Matches(nodeMap[k], nid) {
        return Some(k);
      }
      k := k + 1;
    }
    return None;
  }

  /** No region of the node covers a frame from `prevEnd` up to the start of the region at i, or up
      to anywhere if there is no such region. */
  ghost predicate GapBefore(nodeMap: seq<Region>, nid: Option<nat>, prevEnd: nat, i: Option<nat>) {
    && (i.Some? ==> i.value < |nodeMap| && prevEnd <= nodeMap[i.value].start)
    && forall p: nat :: prevEnd <= p && (i.Some? ==> p < nodeMap[i.value].start) ==> !Covered(nodeMap, nid, p)
  }

  lemma GapAfter(nodeMap: seq<Region>, nid: Option<nat>, i: nat, next: Option<nat>)
    requires Sorted(nodeMap, nid) && i < |nodeMap| && Matches(nodeMap[i], nid)
    requires next.None? ==> forall k :: i + 1 <= k < |nodeMap| ==> !Matches(nodeMap[k], nid)
    requires next.Some? ==> i < next.value < |nodeMap| && Matches(nodeMap[next.value], nid)
    requires next.Some? ==> forall k :: i + 1 <= k < next.value ==> !Matches(nodeMap[k], nid)
    ensures GapBefore(nodeMap, nid, nodeMap[i].end, next)
  {
    forall p: nat | nodeMap[i].end <= p && (next.Some? ==> p < nodeMap[next.value].start)
      ensures !Covered(nodeMap, nid, p)
    {
      forall k | 0 <= k < |nodeMap| && Matches(nodeMap[k], nid)
        ensures !(nodeMap[k].start <= p < nodeMap[k].end)
      {
      }
    }
  }

  /** The single pass over the node's regions counts exactly the uncovered frames. A node without
      any region is reported to have no hole at all. */
  method AbsentPagesInRange(nodeMap: seq<Region>, nid: Option<nat>, rangeStart: nat, rangeEnd: nat) returns (holePages: nat)
    requires Sorted(nodeMap, nid) && rangeStart <= rangeEnd
    ensures holePages == if HasRegion(nodeMap, nid) then Holes(nodeMap, nid, rangeStart, rangeEnd) else 0
  {
    hide Holes;
    var i := NextRegionIndex(nodeMap, nid, 0);
    if i.None? {
      return 0;
    }
    var prevEnd: nat := Min(nodeMap[i.value].start, rangeEnd);
    holePages := 0;
    if nodeMap[i.value].start > rangeStart {
      holePages := prevEnd - rangeStart;
    }
    StartGap(nodeMap, nid, i.value, rangeStart, rangeEnd);
    while i.Some?
      invariant i.Some? ==> i.value < |nodeMap| && Matches(nodeMap[i.value], nid)
      invariant holePages == Holes(nodeMap, nid, rangeStart, Max(rangeStart, Min(prevEnd, rangeEnd)))
      invariant prevEnd < rangeEnd ==> GapBefore(nodeMap, nid, prevEnd, i)
      decreases if i.Some? then |nodeMap| - i.value else 0
    {
      if prevEnd >= rangeEnd {
        break;
      }
      var startPfn := Min(nodeMap[i.value].start, rangeEnd);
      prevEnd := Max(prevEnd, rangeStart);
      if startPfn > rangeStart {
        assert prevEnd <= startPfn;
        HolesInGap(nodeMap, nid, rangeStart, prevEnd, startPfn);
        holePages := holePages + startPfn - prevEnd;
      }
      ghost var cur := i.value;
      HolesInRegion(nodeMap, nid, rangeStart, Max(rangeStart, startPfn), Max(rangeStart, Min(nodeMap[cur].end, rangeEnd)));
      prevEnd := nodeMap[i.value].end;
      i := NextRegionIndex(nodeMap, nid, i.value + 1);
      GapAfter(nodeMap, nid, cur, i);
    }
    if rangeEnd > prevEnd {
      HolesInGap(nodeMap, nid, rangeStart, Max(rangeStart, prevEnd), rangeEnd);
      holePages := holePages + rangeEnd - Max(rangeStart, prevEnd);
    }
  }

  lemma StartGap(nodeMap: seq<Region>, nid: Option<nat>, i: nat, lo: nat, hi: nat)
    requires Sorted(nodeMap, nid) && i < |nodeMap| && Matches(nodeMap[i], nid) && lo <= hi
    requires forall k :: 0 <= k < i ==> !Matches(nodeMap[k], nid)
    ensures GapBefore(nodeMap, nid, nodeMap[i].start, Some(i))
    ensures Holes(nodeMap, nid, lo, Max(lo, Min(nodeMap[i].start, hi))) ==
      if nodeMap[i].start > lo then Min(nodeMap[i].start, hi) - lo else 0
  {
    forall p: nat | p < nodeMap[i].start
      ensures !Covered(nodeMap, nid, p)
    {
      forall k | 0 <= k < |nodeMap| && Matches(nodeMap[k], nid)
        ensures !(nodeMap[k].start <= p < nodeMap[k].end)
      {
      }
    }
    HolesInGap(nodeMap, nid, lo, lo, Max(lo, Min(nodeMap[i].start, hi)));
  }

  /** Counting is right exactly if the node has a region or the range is empty. */
  lemma NoRegionMiscount(nodeMap: seq<Region>, nid: Option<nat>, lo: nat, hi: nat)
    requires lo <= hi && !HasRegion(nodeMap, nid)
    ensures Holes(nodeMap, nid, lo, hi) == 0 <==> lo == hi
  {
    HolesInGap(nodeMap, nid, lo, lo, hi);
  }
}
