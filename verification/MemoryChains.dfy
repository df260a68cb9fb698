/** Memory chains of the hierarchical memory manager (HierarchicalMemoryManager/src/mem): doubly
    linked lists of pages with a cached representative. */
module MemoryChains {
  import opened Sequences

  /** util/LogicalClock. */
  class LogicalClock {
    var counter: nat

    constructor (start: nat)
      ensures counter == start
    {
      counter := start;
    }

    method Generate() returns (stamp: nat)
      modifies this
      ensures counter == old(counter) + 1 == stamp
    {
      counter := counter + 1;
      stamp := counter;
    }
  }

  /** mem/Page. The numbers of the chains it resides in and is assigned to are -1 when there is none. */
  class Page {
    const address: int
    var frame: int
    var timestamp: int
    var referenced: bool
    var resides: int
    var assignedTo: int
    var next: Page?
    var prev: Page?
    var hits: nat
    var misses: nat

    constructor (address: int)
      ensures this.address == address && timestamp == 0 && !referenced && frame == 0
      ensures resides == -1 && assignedTo == -1 && next == null && prev == null && hits == 0 && misses == 0
    {
      this.address := address;
      frame, timestamp, referenced := 0, 0, false;
      resides, assignedTo, next, prev := -1, -1, null, null;
      hits, misses := 0, 0;
    }

    method Load(clock: LogicalClock)
      modifies `misses, `timestamp, clock
      ensures misses == old(misses) + 1
      ensures clock.counter == old(clock.counter) + 1 == timestamp
    {
      misses := misses + 1;
      timestamp := clock.Generate();
    }

    method Ref(clock: LogicalClock)
      modifies `hits, `timestamp, `referenced, clock
      ensures hits == old(hits) + 1 && referenced
      ensures clock.counter == old(clock.counter) + 1 == timestamp
    {
      hits := hits + 1;
      timestamp := clock.Generate();
      referenced := true;
    }
  }

  /** The largest timestamp of the pages, 0 if there are none. */
  ghost function Latest(s: seq<Page>): (m: int)
    reads (set p | p in s)`timestamp
    ensures m >= 0 && forall p :: p in s ==> p.timestamp <= m
    ensures m > 0 ==> exists p :: p in s && p.timestamp == m
  {
    if s == [] then 0
    else
      var m := Latest(s[1..]);
      if s[0].timestamp > m then s[0].timestamp else m
  }

  class MemoryChain {
    const id: int
    var size: nat
    var head: Page?
    var tail: Page?
    var anchor: Page?
    var timestamp: int
    var representative: Page?
    ghost var nodes: seq<Page>

    /** The pages are linked in the order of nodes. The tail is only meaningful while there are
        pages: unlinking the last one leaves it behind. */
    ghost predicate Valid()
      reads `size, `head, `tail, `nodes, Elements(nodes)`next, Elements(nodes)`prev, Elements(nodes)`resides
    {
      && size == |nodes| && Distinct(nodes)
      && head == (if nodes == [] then null else nodes[0])
      && (nodes != [] ==> tail == nodes[|nodes| - 1])
      && (forall i {:trigger nodes[i].resides} :: 0 <= i < |nodes| ==> nodes[i].resides == id)
      && Linked(nodes)
    }

    constructor (id: int)
      ensures Valid() && this.id == id && nodes == [] && timestamp == 0 && representative == null && anchor == null
    {
      this.id := id;
      size, head, tail, anchor, timestamp, representative := 0, null, null, null, 0, null;
      nodes := [];
    }

    /** Forgets the links of a page that left a chain. */
    method Reset(page: Page)
      modifies page`prev, page`next, page`resides
      ensures page.prev == null && page.next == null && page.resides == -1
    {
      page.prev := null;
      page.next := null;
      page.resides := -1;
    }

    /** The links of the pages s, from head to tail. */
    static ghost predicate Linked(s: seq<Page>)
      reads Elements(s)`next, Elements(s)`prev
    {
      && (forall i {:trigger s[i].prev} :: 0 <= i < |s| ==> s[i].prev == (if i == 0 then null else s[i - 1]))
      && (forall i {:trigger s[i].next} :: 0 <= i < |s| ==> s[i].next == (if i == |s| - 1 then null else s[i + 1]))
    }

    /** The links of the pages n when the one at position i is passed over. */
    static ghost predicate LinkedPast(n: seq<Page>, i: nat)
      requires i < |n|
      reads Elements(n)`next, Elements(n)`prev
    {
      && (forall j {:trigger n[j].prev} :: 0 <= j < |n| && j != i ==>
        n[j].prev == (if j == i + 1 then if i == 0 then null else n[i - 1] else if j == 0 then null else n[j - 1]))
      && (forall j {:trigger n[j].next} :: 0 <= j < |n| && j != i ==>
        n[j].next == (if j == i - 1 then if i == |n| - 1 then null else n[i + 1] else if j == |n| - 1 then null else n[j + 1]))
    }

    static lemma PassedOver(n: seq<Page>, i: nat)
      requires Distinct(n) && i < |n| && LinkedPast(n, i)
      ensures Linked(Cut(n, i)) && Distinct(Cut(n, i)) && n[i] !in Elements(Cut(n, i)) && |Cut(n, i)| == |n| - 1
      ensures forall j :: 0 <= j < |n| - 1 ==> Cut(n, i)[j] == n[if j < i then j else j + 1] && Cut(n, i)[j] != n[i]
    {
      CutKeeps(n, i);
      var s := Cut(n, i);
      forall j | 0 <= j < |s|
        ensures s[j].prev == (if j == 0 then null else s[j - 1])
        ensures s[j].next == (if j == |s| - 1 then null else s[j + 1])
      {
        assert s[j] == n[if j < i then j else j + 1];
      }
    }

    /** Links the neighbours of the page at position i with each other. */
    method Splice(page: Page, ghost i: nat)
      requires Valid() && i < |nodes| && nodes[i] == page
      modifies `head, `tail, Elements(nodes)`next, Elements(nodes)`prev
      ensures var s := Cut(nodes, i); head == (if s == [] then null else s[0]) && (s != [] ==> tail == s[|s| - 1])
      ensures LinkedPast(nodes, i)
    {
      if page.prev == null {
        head := page.next;
        if head != null {
          head.prev := null;
        }
      } else {
        var previous := page.prev;
        previous.next := page.next;
        if page.next != null {
          page.next.prev := previous;
        } else {
          tail := page.prev;
        }
      }
    }

    /** Takes the page at position i out of the list. */
    method Remove(page: Page, ghost i: nat)
      requires Valid() && i < |nodes| && nodes[i] == page
      modifies `head, `tail, `size, `nodes, Elements(nodes)`next, Elements(nodes)`prev, page`resides
      ensures Valid() && nodes == Cut(old(nodes), i)
      ensures page.resides == -1 && page.prev == null && page.next == null
    {
      hide Linked, LinkedPast, Cut, Distinct;
      ghost var n := nodes;
      Splice(page, i);
      PassedOver(n, i);
      Reset(page);
      ghost var s := Cut(n, i);
      assert Linked(s);
      assert forall j :: 0 <= j < |s| ==> s[j].resides == id;
      size := size - 1;
      nodes := s;
    }

    /** A page that is not null and resides somewhere must reside here. */
    method Unlink(page: Page?, ghost i: nat)
      requires Valid() && (page != null && page.resides != -1 ==> i < |nodes| && nodes[i] == page)
      modifies this, Elements(nodes)`next, Elements(nodes)`prev, (if page == null then {} else {page})`resides
      ensures Valid() && timestamp == old(timestamp)
      ensures page == null || old(page.resides) == -1 ==>
        nodes == old(nodes) && representative == old(representative) && anchor == old(anchor)
      ensures page != null && old(page.resides) != -1 ==>
        && nodes == Cut(old(nodes), i)
        && representative == (if old(representative) == page then null else old(representative))
        && anchor == (if old(anchor) == page then null else old(anchor))
        && page.resides == -1 && page.prev == null && page.next == null
    {
      if page != null && page.resides != -1 {
        Remove(page, i);
        if anchor == page {
          anchor := null;
        }
        if representative == page {
          representative := null;
        }
      }
    }

    static lemma PushedFront(n: seq<Page>, page: Page)
      requires Distinct(n) && page !in n && page.prev == null && page.next == (if n == [] then null else n[0])
      requires forall i {:trigger n[i].prev} :: 0 <= i < |n| ==> n[i].prev == (if i == 0 then page else n[i - 1])
      requires forall i {:trigger n[i].next} :: 0 <= i < |n| ==> n[i].next == (if i == |n| - 1 then null else n[i + 1])
      ensures Linked([page] + n) && Distinct([page] + n)
    {
      var s := [page] + n;
      forall j | 0 <= j < |s|
        ensures s[j].prev == (if j == 0 then null else s[j - 1])
        ensures s[j].next == (if j == |s| - 1 then null else s[j + 1])
      {
        assert j > 0 ==> s[j] == n[j - 1];
      }
    }

    /** Puts a page that resides nowhere at the head. */
    method Push(page: Page)
      requires Valid() && page.resides == -1 != id && page.prev == null && page.next == null && page !in nodes
      modifies `size, `head, `tail, `nodes, page`next, page`resides, Elements(nodes)`prev
      ensures Valid() && nodes == [page] + old(nodes) && page.resides == id
    {
      ghost var n := nodes;
      size := size + 1;
      if head == null {
        head := page;
        tail := page;
      } else {
        head.prev := page;
        page.next := head;
        head := page;
      }
      page.resides := id;
      PushedFront(n, page);
      nodes := [page] + n;
    }

    /** A page that resides nowhere is put at the head; one that resides here already stays. */
    method Link(page: Page)
      requires Valid()
      requires page.resides != id ==> page.resides == -1 && page.prev == null && page.next == null && page !in nodes
      modifies this, page`next, page`resides, Elements(nodes)`prev
      ensures Valid() && anchor == old(anchor)
      ensures old(page.resides) == id ==>
        nodes == old(nodes) && timestamp == old(timestamp) && representative == old(representative)
      ensures old(page.resides) != id ==> nodes == [page] + old(nodes) && Represents(page, old(timestamp), old(representative))
    {
      if page.resides == id {
        return;
      }
      Push(page);
      Represent(page);
    }

    /** The cached timestamp and representative once page, which resides here, has been offered. */
    ghost predicate Represents(page: Page, stamp: int, rep: Page?)
      reads `timestamp, `representative, page`timestamp
    {
      if page.timestamp > stamp then timestamp == page.timestamp && representative == page
      else timestamp == stamp && representative == rep
    }

    method Raise(page: Page)
      modifies `timestamp, `representative
      ensures Represents(page, old(timestamp), old(representative))
    {
      if page.timestamp > timestamp {
        timestamp := page.timestamp;
        representative := page;
      }
    }

    /** representative(page). */
    method Represent(page: Page)
      modifies `timestamp, `representative
      ensures page.resides == id ==> Represents(page, old(timestamp), old(representative))
      ensures page.resides != id ==> timestamp == old(timestamp) && representative == old(representative)
    {
      if page.resides == id {
        Raise(page);
      }
    }

    method Anchor(page: Page)
      requires Valid()
      requires page.resides != id ==> page.resides == -1 && page.prev == null && page.next == null && page !in nodes
      modifies this, page`next, page`resides, Elements(nodes)`prev
      ensures Valid() && anchor == page
      ensures old(page.resides) == id ==>
        nodes == old(nodes) && timestamp == old(timestamp) && representative == old(representative)
      ensures old(page.resides) != id ==> nodes == [page] + old(nodes) && Represents(page, old(timestamp), old(representative))
    {
      Link(page);
      anchor := page;
    }

    /** Empties the chain; its timestamp and representative stay as they were. */
    method Unchain() returns (pages: seq<Page>)
      requires Valid()
      modifies this, Elements(nodes)`next, Elements(nodes)`prev, Elements(nodes)`resides
      ensures Valid() && nodes == [] && pages == old(nodes)
      ensures timestamp == old(timestamp) && representative == old(representative) && anchor == null
      ensures forall p :: p in pages ==> p.resides == -1 && p.prev == null && p.next == null
    {
      ghost var n := nodes;
      pages := [];
      var p := head;
      while p != null
        invariant |pages| <= |n| && pages == n[..|pages|]
        invariant p == (if |pages| == |n| then null else n[|pages|])
        invariant forall j {:trigger n[j].next} :: |pages| <= j < |n| ==> n[j].next == (if j == |n| - 1 then null else n[j + 1])
        invariant forall j :: 0 <= j < |pages| ==> n[j].resides == -1 && n[j].prev == null && n[j].next == null
        invariant this.nodes == n && timestamp == old(timestamp) && representative == old(representative)
        decreases |n| - |pages|
      {
        var tmp := p;
        p := p.next;
        Reset(tmp);
        pages := pages + [tmp];
      }
      assert n[..|n|] == n;
      head := null;
      tail := null;
      anchor := null;
      size := 0;
      nodes := [];
    }

    /** The cursors h and t of a scan from both ends, in round i. */
    ghost predicate Cursors(h: Page?, t: Page?, i: nat)
      reads `nodes
    {
      && i <= |nodes|
      && h == (if i == |nodes| then null else nodes[i])
      && (i < |nodes| ==> t == nodes[|nodes| - 1 - i] && t != null)
    }

    /** The positions that one of the cursors has passed before round i. */
    ghost predicate Passed(k: int, i: nat)
      reads `nodes
    {
      k < i || |nodes| - 1 - k < i
    }

    /** No passed member but skip is older than m. */
    ghost predicate NoneOlder(m: int, skip: Page?, i: nat)
      reads `nodes, Elements(nodes)`timestamp
    {
      forall k :: 0 <= k < |nodes| && Passed(k, i) && nodes[k] != skip ==> m <= nodes[k].timestamp
    }

    /** No passed member but skip is younger than m. */
    ghost predicate NoneYounger(m: int, skip: Page?, i: nat)
      reads `nodes, Elements(nodes)`timestamp
    {
      forall k :: 0 <= k < |nodes| && Passed(k, i) && nodes[k] != skip ==> nodes[k].timestamp <= m
    }

    lemma Start(m: int, skip: Page?)
      ensures NoneOlder(m, skip, 0) && NoneYounger(m, skip, 0)
    {
    }

    /** One round looks at the pages under both cursors. */
    lemma Round(m: int, skip: Page?, i: nat)
      requires i < |nodes|
      ensures var h, t := nodes[i], nodes[|nodes| - 1 - i];
        && (NoneOlder(m, skip, i) && (h == skip || m <= h.timestamp) && (t == skip || m <= t.timestamp)
          ==> NoneOlder(m, skip, i + 1))
        && (NoneYounger(m, skip, i) && (h == skip || h.timestamp <= m) && (t == skip || t.timestamp <= m)
          ==> NoneYounger(m, skip, i + 1))
    {
    }

    lemma Looser(m: int, m': int, skip: Page?, i: nat)
      ensures NoneOlder(m, skip, i) && m' <= m ==> NoneOlder(m', skip, i)
      ensures NoneYounger(m, skip, i) && m <= m' ==> NoneYounger(m', skip, i)
    {
    }

    /** When the loop ends the cursors have passed every member: after half the rounds if their number
        is even, and after as many rounds as there are members if it is odd. */
    lemma ScanEnds(h: Page?, t: Page?, i: nat, m: int, skip: Page?)
      requires Valid() && Cursors(h, t, i) && (h == null || h.prev == t)
      ensures i == |nodes| || 2 * i == |nodes|
      ensures NoneOlder(m, skip, i) ==> forall p :: p in nodes && p != skip ==> m <= p.timestamp
      ensures NoneYounger(m, skip, i) ==> forall p :: p in nodes && p != skip ==> p.timestamp <= m
    {
      if h != null {
        ScanStep(h, t, i);
      }
      assert forall k :: 0 <= k < |nodes| ==> Passed(k, i);
    }

    lemma ScanStep(h: Page, t: Page?, i: nat)
      requires Valid() && Cursors(h, t, i)
      ensures Cursors(h.next, t.prev, i + 1) && h == nodes[i] && t == nodes[|nodes| - 1 - i]
      ensures h.prev == t <==> 2 * i == |nodes|
    {
    }

    /** The timestamp that timestamp() returns. */
    ghost function Effective(): int
      reads `timestamp, `representative, `nodes, Elements(nodes)`timestamp
    {
      if representative != null then timestamp else Latest(nodes)
    }

    /** The search state of timestamp(): the youngest page that the cursors have passed. */
    ghost predicate Candidate(i: nat)
      reads `timestamp, `representative, `nodes, Elements(nodes)`timestamp
    {
      && timestamp >= 0 && NoneYounger(timestamp, null, i)
      && if representative == null then timestamp == 0 else representative in nodes && representative.timestamp == timestamp
    }

    /** One round of the search. */
    method RaiseTo(h: Page, t: Page, ghost i: nat)
      requires Valid() && Cursors(h, t, i) && Candidate(i)
      modifies `timestamp, `representative
      ensures Valid() && Cursors(h.next, t.prev, i + 1) && Candidate(i + 1)
    {
      ScanStep(h, t, i);
      ghost var bound := timestamp;
      Raise(h);
      Raise(t);
      Looser(bound, timestamp, null, i);
      Round(timestamp, null, i);
    }

    /** The cached timestamp is taken over unless there is no representative; then the members decide. */
    method Timestamp() returns (r: int)
      requires Valid()
      modifies `timestamp, `representative
      ensures r == old(Effective()) == Effective() == timestamp
      ensures old(representative) != null ==> timestamp == old(timestamp) && representative == old(representative)
      ensures old(representative) == null && representative != null ==> representative in nodes && representative.timestamp == r
      ensures representative == null ==> r == 0
    {
      hide Linked, Distinct, NoneOlder, NoneYounger;
      if representative == null {
        Start(0, null);
        timestamp := 0;
        var h, t := head, tail;
        ghost var i := 0;
        while h != null && h.prev != t
          invariant Valid() && Cursors(h, t, i) && Candidate(i)
          decreases |nodes| - i
        {
          RaiseTo(h, t, i);
          h, t, i := h.next, t.prev, i + 1;
        }
        ScanEnds(h, t, i, timestamp, null);
      }
      r := timestamp;
    }

    /** The least recently used member other than the anchor. */
    method Lru(clock: LogicalClock) returns (page: Page?)
      requires Valid() && forall p :: p in nodes ==> p.timestamp <= clock.counter
      ensures page == null <==> forall p :: p in nodes ==> p == anchor
      ensures page != null ==> page in nodes && page != anchor
      ensures page != null ==> forall p :: p in nodes && p != anchor ==> page.timestamp <= p.timestamp
    {
      hide Linked, Distinct, NoneOlder, NoneYounger;
      var min := clock.counter + 1;
      page := null;
      Start(clock.counter + 1, anchor);
      var h, t := head, tail;
      ghost var i := 0;
      while h != null && h.prev != t
        invariant Valid() && Cursors(h, t, i)
        invariant if page == null then min == clock.counter + 1 else page in nodes && page != anchor && page.timestamp == min
        invariant NoneOlder(min, anchor, i)
        decreases |nodes| - i
      {
        ScanStep(h, t, i);
        ghost var bound := min;
        if h.timestamp <= min && h != anchor {
          min := h.timestamp;
          page := h;
        }
        if t.timestamp <= min && t != anchor {
          min := t.timestamp;
          page := t;
        }
        Looser(bound, min, anchor, i);
        Round(min, anchor, i);
        h, t, i := h.next, t.prev, i + 1;
      }
      ScanEnds(h, t, i, min, anchor);
    }

    /** The most recently used member other than the anchor. */
    method Mru() returns (page: Page?)
      requires Valid() && forall p :: p in nodes ==> p.timestamp >= 0
      ensures page == null <==> forall p :: p in nodes ==> p == anchor
      ensures page != null ==> page in nodes && page != anchor
      ensures page != null ==> forall p :: p in nodes && p != anchor ==> page.timestamp >= p.timestamp
    {
      hide Linked, Distinct, NoneOlder, NoneYounger;
      var max := 0;
      page := null;
      Start(-1, anchor);
      var h, t := head, tail;
      ghost var i := 0;
      while h != null && h.prev != t
        invariant Valid() && Cursors(h, t, i)
        invariant if page == null then max == 0 else page in nodes && page != anchor && page.timestamp == max
        invariant NoneYounger(if page == null then -1 else max, anchor, i)
        decreases |nodes| - i
      {
        ScanStep(h, t, i);
        ghost var bound := if page == null then -1 else max;
        if h.timestamp >= max && h != anchor {
          max := h.timestamp;
          page := h;
        }
        if t.timestamp >= max && t != anchor {
          max := t.timestamp;
          page := t;
        }
        Looser(bound, if page == null then -1 else max, anchor, i);
        Round(if page == null then -1 else max, anchor, i);
        h, t, i := h.next, t.prev, i + 1;
      }
      ScanEnds(h, t, i, if page == null then -1 else max, anchor);
    }

    /** The member with the smallest timestamp, if the clock is not behind. */
    method Victim(clock: LogicalClock) returns (victim: Page?)
      requires Valid() && forall p :: p in nodes ==> p.timestamp <= clock.counter
      ensures nodes == [] ==> victim == null
      ensures nodes != [] ==> victim in nodes && forall p :: p in nodes ==> victim.timestamp <= p.timestamp
    {
      hide Linked, Distinct, NoneOlder, NoneYounger;
      var minimum := clock.counter + 1;
      victim := null;
      Start(clock.counter + 1, null);
      var h, t := head, tail;
      ghost var i := 0;
      while h != null && h.prev != t
        invariant Valid() && Cursors(h, t, i)
        invariant if victim == null then i == 0 && minimum == clock.counter + 1 else victim in nodes && victim.timestamp == minimum
        invariant NoneOlder(minimum, null, i)
        decreases |nodes| - i
      {
        ScanStep(h, t, i);
        ghost var bound := minimum;
        if h.timestamp < minimum {
          minimum := h.timestamp;
          victim := h;
        }
        if t.timestamp < minimum {
          minimum := t.timestamp;
          victim := t;
        }
        Looser(bound, minimum, null, i);
        Round(minimum, null, i);
        h, t, i := h.next, t.prev, i + 1;
      }
      ScanEnds(h, t, i, minimum, null);
    }

    /** The oldest of the members that are older than limit, found by following the links. */
    method OldestBelow(limit: int) returns (page: Page?, minimum: int)
      requires Valid()
      ensures page == null ==> minimum == limit && forall p :: p in nodes ==> p.timestamp >= limit
      ensures page != null ==> page in nodes && page.timestamp == minimum < limit && forall p :: p in nodes ==> minimum <= p.timestamp
    {
      page, minimum := null, limit;
      var p := head;
      ghost var i := 0;
      while p != null
        invariant i <= |nodes| && p == (if i == |nodes| then null else nodes[i])
        invariant if page == null then minimum == limit else page in nodes && page.timestamp == minimum < limit
        invariant forall j :: 0 <= j < i ==> minimum <= nodes[j].timestamp
        decreases |nodes| - i
      {
        if p.timestamp < minimum {
          page := p;
          minimum := p.timestamp;
        }
        p, i := p.next, i + 1;
      }
    }
  }
}
