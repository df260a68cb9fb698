/** The hierarchical memory manager (HierarchicalMemoryManager/src/mem/HierarchicalMemoryManager.java). */
module MemoryManager {
  import opened Frames
  import opened MemoryChains
  import opened Options
  import opened Paging
  import opened Representatives
  import opened Sequences

  /** The pages of a chain have the addresses s, in that order. */
  ghost predicate Holds(nodes: seq<Page>, s: seq<int>, pages: map<int, Page>) {
    |nodes| == |s| && forall i :: 0 <= i < |s| ==> s[i] in pages && nodes[i] == pages[s[i]]
  }

  ghost predicate Addressed(pages: map<int, Page>) {
    forall a :: a in pages ==> pages[a].address == a
  }

  lemma HoldsCut(nodes: seq<Page>, s: seq<int>, pages: map<int, Page>, i: nat)
    requires Holds(nodes, s, pages) && Distinct(s) && i < |s|
    ensures Holds(Cut(nodes, i), Minus(s, s[i]), pages)
  {
    MinusIsCut(s, i);
  }

  /** Chains with no page in common have no node in common. */
  lemma HoldsApart(n: seq<Page>, s: seq<int>, m: seq<Page>, t: seq<int>, pages: map<int, Page>)
    requires Holds(n, s, pages) && Holds(m, t, pages) && Addressed(pages)
    requires forall i, j :: 0 <= i < |s| && 0 <= j < |t| ==> s[i] != t[j]
    ensures Elements(n) !! Elements(m)
  {
    assert forall i :: 0 <= i < |s| ==> n[i].address == s[i];
    assert forall j :: 0 <= j < |t| ==> m[j].address == t[j];
    forall p | p in Elements(n)
      ensures p !in Elements(m)
    {
      var i :| 0 <= i < |n| && n[i] == p;
      assert p.address == s[i];
    }
  }

  /** What the objects amount to: the state, the cached marks, all pages ever used and all live chains. */
  datatype View = View(st: State, mk: Marks, ps: map<int, Page>, co: map<int, MemoryChain>)

  /** A change to the chain with number k around the page at address a; n are the chain's pages before. */
  datatype Change = Change(chain: MemoryChain, n: seq<Page>, page: Page?, a: int, k: int, v: View,
                           s': seq<int>, resides': map<int, int>, m': Mark)

  ghost predicate TimesOk(ps: map<int, Page>, stamp: map<int, nat>)
    reads ps.Values`timestamp
  {
    ps.Keys == stamp.Keys && forall a :: a in ps ==> ps[a] in ps.Values && ps[a].timestamp == stamp[a]
  }

  ghost predicate AssignedOk(ps: map<int, Page>, assignedTo: map<int, int>)
    reads ps.Values`assignedTo
  {
    ps.Keys == assignedTo.Keys && forall a :: a in ps ==> ps[a] in ps.Values && ps[a].assignedTo == assignedTo[a]
  }

  ghost predicate MissesOk(ps: map<int, Page>, misses: map<int, nat>)
    reads ps.Values`misses
  {
    ps.Keys == misses.Keys && forall a :: a in ps ==> ps[a] in ps.Values && ps[a].misses == misses[a]
  }

  ghost predicate ResidesOk(ps: map<int, Page>, resides: map<int, int>)
    reads ps.Values`resides, ps.Values`prev, ps.Values`next
  {
    && resides.Keys <= ps.Keys
    && (forall a :: a in ps ==> ps[a] in ps.Values && ps[a].resides == (if a in resides then resides[a] else -1))
    && (forall a :: a in ps && a !in resides ==> ps[a] in ps.Values && ps[a].prev == null && ps[a].next == null)
  }

  ghost predicate ChainsOk(ps: map<int, Page>, co: map<int, MemoryChain>, chains: map<int, seq<int>>)
    reads co.Values`nodes, co.Values`size, co.Values`head, co.Values`tail, ps.Values`next, ps.Values`prev, ps.Values`resides
  {
    && chains.Keys == co.Keys
    && forall k :: k in co ==> co[k] in co.Values && ChainOk(ps, co[k], k, chains[k])
  }

  ghost predicate ChainOk(ps: map<int, Page>, c: MemoryChain, k: int, s: seq<int>)
    reads c`nodes, c`size, c`head, c`tail, ps.Values`next, ps.Values`prev, ps.Values`resides
  {
    && c.id == k && Holds(c.nodes, s, ps)
    && (forall p :: p in c.nodes ==> p in ps.Values)
    && c.Valid()
  }

  ghost predicate MarksMatch(ps: map<int, Page>, co: map<int, MemoryChain>, mk: Marks)
    reads co.Values`timestamp, co.Values`representative
  {
    && mk.Keys == co.Keys
    && forall k :: k in co ==> co[k] in co.Values && MarkMatches(co[k].timestamp, co[k].representative, mk[k], ps)
  }

  ghost predicate MarkMatches(stamp: int, rep: Page?, m: Mark, ps: map<int, Page>) {
    && m.stamp == stamp
    && (rep == null <==> m.rep.None?)
    && (m.rep.Some? ==> m.rep.value in ps && rep == ps[m.rep.value])
  }

  /** No chain but k has anything to do with the pages n. */
  ghost predicate Separate(co: map<int, MemoryChain>, k: int, n: seq<Page>)
    requires k in co
    reads co.Values`nodes
  {
    forall l :: l in co && l != k ==> co[l] in co.Values && co[l] != co[k] && Elements(co[l].nodes) !! Elements(n)
  }

  ghost predicate Alone(co: map<int, MemoryChain>, k: int)
    requires k in co
  {
    forall l :: l in co && l != k ==> co[l] != co[k]
  }

  /** No page that resides nowhere is among the pages n. */
  ghost predicate AllHeld(ps: map<int, Page>, resides: map<int, int>, n: seq<Page>) {
    forall b :: b in ps && b !in resides ==> ps[b] !in Elements(n)
  }

  /** What a chain k with a page in position i looks like. */
  lemma MemberFacts(ps: map<int, Page>, co: map<int, MemoryChain>, st: State, k: int, i: nat)
    requires ChainsOk(ps, co, st.chains) && ResidesOk(ps, st.resides) && st.Placed() && k in co && i < |st.chains[k]|
    ensures var n, a := co[k].nodes, st.chains[k][i];
      && co[k].Valid() && Holds(n, st.chains[k], ps) && Distinct(st.chains[k])
      && i < |n| && a in ps && n[i] == ps[a] && ps[a].resides == k && a in st.resides
  {
    assert ChainOk(ps, co[k], k, st.chains[k]);
    assert st.chains[k][i] in st.chains[k];
  }

  lemma ChainFacts(ps: map<int, Page>, co: map<int, MemoryChain>, st: State, k: int)
    requires ChainsOk(ps, co, st.chains) && st.Placed() && k in co && Addressed(ps)
    ensures co[k] in co.Values && Elements(co[k].nodes) <= ps.Values && k in st.chains
    ensures co[k].Valid() && Holds(co[k].nodes, st.chains[k], ps)
    ensures Separate(co, k, co[k].nodes) && AllHeld(ps, st.resides, co[k].nodes) && Alone(co, k) && co[k].id == k
  {
    assert ChainOk(ps, co[k], k, st.chains[k]);
    forall l | l in co && l != k
      ensures co[l] != co[k] && Elements(co[l].nodes) !! Elements(co[k].nodes)
    {
      ChainsApart(ps, co, st, k, l);
    }
    forall b | b in ps && b !in st.resides
      ensures ps[b] !in Elements(co[k].nodes)
    {
      NotHeld(co[k].nodes, st.chains[k], ps, b);
    }
  }

  /** A page that resides nowhere is not in any chain. */
  lemma OutsiderFacts(ps: map<int, Page>, co: map<int, MemoryChain>, st: State, k: int, a: int)
    requires ChainsOk(ps, co, st.chains) && ResidesOk(ps, st.resides) && st.Placed() && k in co && Addressed(ps)
    requires a in ps && a !in st.resides
    ensures co[k] in co.Values && k in st.chains && Elements(co[k].nodes) <= ps.Values && co[k].Valid() && co[k].id == k
    ensures ps[a] !in co[k].nodes && ps[a].resides == -1 && ps[a].prev == null && ps[a].next == null
    ensures Separate(co, k, [ps[a]] + co[k].nodes)
    ensures AllHeld(ps, st.resides[a := k], [ps[a]] + co[k].nodes)
    ensures Holds([ps[a]] + co[k].nodes, [a] + st.chains[k], ps)
  {
    hide MemoryChain.Valid, Distinct, Separate, AllHeld;
    assert ChainOk(ps, co[k], k, st.chains[k]);
    NotHeld(co[k].nodes, st.chains[k], ps, a);
    OutsiderApart(ps, co, st, k, a);
  }

  /** The chains stay apart when a page that is in no chain comes first in one. */
  lemma OutsiderApart(ps: map<int, Page>, co: map<int, MemoryChain>, st: State, k: int, a: int)
    requires ChainsOk(ps, co, st.chains) && ResidesOk(ps, st.resides) && st.Placed() && k in co && Addressed(ps)
    requires a in ps && a !in st.resides
    ensures Separate(co, k, [ps[a]] + co[k].nodes) && AllHeld(ps, st.resides[a := k], [ps[a]] + co[k].nodes)
  {
    hide MemoryChain.Valid;
    assert ChainOk(ps, co[k], k, st.chains[k]);
    forall l | l in co && l != k
      ensures co[l] in co.Values && co[l] != co[k] && Elements(co[l].nodes) !! Elements([ps[a]] + co[k].nodes)
    {
      assert ChainOk(ps, co[l], l, st.chains[l]);
      NotHeld(co[l].nodes, st.chains[l], ps, a);
      ChainsApart(ps, co, st, k, l);
    }
    forall b | b in ps && b !in st.resides[a := k]
      ensures ps[b] !in Elements([ps[a]] + co[k].nodes)
    {
      NotHeld(co[k].nodes, st.chains[k], ps, b);
      assert ps[b].address == b && ps[a].address == a;
    }
  }

  lemma ChainsApart(ps: map<int, Page>, co: map<int, MemoryChain>, st: State, k: int, l: int)
    requires ChainsOk(ps, co, st.chains) && st.Placed() && Addressed(ps) && k in co && l in co && l != k
    ensures co[l] != co[k] && Elements(co[l].nodes) !! Elements(co[k].nodes)
  {
    assert ChainOk(ps, co[k], k, st.chains[k]) && ChainOk(ps, co[l], l, st.chains[l]);
    forall i, j | 0 <= i < |st.chains[l]| && 0 <= j < |st.chains[k]|
      ensures st.chains[l][i] != st.chains[k][j]
    {
      assert st.chains[l][i] in st.chains[l] && st.chains[k][j] in st.chains[k];
    }
    HoldsApart(co[l].nodes, st.chains[l], co[k].nodes, st.chains[k], ps);
  }

  lemma MarkForgets(ps: map<int, Page>, co: map<int, MemoryChain>, mk: Marks, k: int, a: int)
    requires MarksMatch(ps, co, mk) && Addressed(ps) && k in co && a in ps
    ensures k in mk
    ensures var c := co[k];
      MarkMatches(c.timestamp, if c.representative == ps[a] then null else c.representative, Forget(mk[k], a), ps)
  {
    var c := co[k];
    assert MarkMatches(c.timestamp, c.representative, mk[k], ps);
    if mk[k].rep.Some? {
      assert ps[mk[k].rep.value].address == mk[k].rep.value && ps[a].address == a;
    }
  }

  twostate predicate Untouched(c: MemoryChain)
    reads c
  {
    && c.nodes == old(c.nodes) && c.size == old(c.size) && c.head == old(c.head) && c.tail == old(c.tail)
    && c.timestamp == old(c.timestamp) && c.representative == old(c.representative)
  }

  /** Between two states only the chain object, the links of the pages n and where those pages reside
      have changed. */
  twostate predicate Relinked(c: Change)
    reads c.v.co.Values, c.v.ps.Values
  {
    && (forall o :: o in c.v.co.Values && o != c.chain ==> Untouched(o))
    && (forall p :: p in c.v.ps.Values && p !in Elements(c.n) ==> p.prev == old(p.prev) && p.next == old(p.next))
    && (forall p :: p in c.v.ps.Values && p !in Elements(c.n) ==> p.resides == old(p.resides))
  }

  /** All other pages reside where they did. */
  twostate predicate OneMoved(c: Change)
    reads c.v.ps.Values
  {
    forall p :: p in c.v.ps.Values && p != c.page ==> p.resides == old(p.resides)
  }

  ghost predicate ChainChanged(c: Change)
    reads c.chain, Elements(c.chain.nodes)
  {
    && c.k in c.v.co && c.v.co[c.k] == c.chain && c.chain in c.v.co.Values && c.k in c.v.st.chains
    && Holds(c.chain.nodes, c.s', c.v.ps) && c.chain.Valid()
  }

  /** All chains are well linked if the changed one is. */
  twostate lemma ChainsRelinked(c: Change)
    ensures ChainChanged(c) && Relinked(c) && old(ChainsOk(c.v.ps, c.v.co, c.v.st.chains) && Separate(c.v.co, c.k, c.n))
      ==> ChainsOk(c.v.ps, c.v.co, c.v.st.chains[c.k := c.s'])
  {
    if ChainChanged(c) && Relinked(c) && old(ChainsOk(c.v.ps, c.v.co, c.v.st.chains) && Separate(c.v.co, c.k, c.n)) {
      assert old(ChainOk(c.v.ps, c.chain, c.k, c.v.st.chains[c.k]));
      forall l | l in c.v.co && l != c.k
        ensures ChainOk(c.v.ps, c.v.co[l], l, c.v.st.chains[l])
      {
        var o := c.v.co[l];
        assert old(ChainOk(c.v.ps, o, l, c.v.st.chains[l])) && o in c.v.co.Values && Untouched(o);
        assert forall p :: p in o.nodes ==> p in Elements(o.nodes) && p in c.v.ps.Values;
      }
    }
  }

  ghost predicate PageLeft(c: Change)
    reads c.page
  {
    && AllHeld(c.v.ps, c.v.st.resides, c.n) && Addressed(c.v.ps) && c.a in c.v.ps && c.v.ps[c.a] == c.page
    && c.page != null && c.page.resides == -1 && c.page.prev == null && c.page.next == null
    && c.resides' == c.v.st.resides - {c.a}
  }

  ghost predicate PageEntered(c: Change)
    reads c.page
  {
    && AllHeld(c.v.ps, c.resides', c.n) && Addressed(c.v.ps) && c.a in c.v.ps && c.v.ps[c.a] == c.page
    && c.page != null && c.page.resides == c.k && c.resides' == c.v.st.resides[c.a := c.k]
  }

  twostate lemma ResidesAttached(c: Change)
    ensures PageEntered(c) && Relinked(c) && OneMoved(c) && old(ResidesOk(c.v.ps, c.v.st.resides)) ==> ResidesOk(c.v.ps, c.resides')
  {
    if PageEntered(c) && Relinked(c) && OneMoved(c) && old(ResidesOk(c.v.ps, c.v.st.resides)) {
      forall b | b in c.v.ps && b != c.a
        ensures c.v.ps[b] in c.v.ps.Values && c.v.ps[b] != c.page
      {
        assert c.v.ps[b].address == b && c.v.ps[c.a].address == c.a;
      }
    }
  }

  ghost predicate PagesLeft(c: Change)
    reads c.n
  {
    && Addressed(c.v.ps) && c.k in c.v.st.chains && Holds(c.n, c.v.st.chains[c.k], c.v.ps)
    && (forall i :: 0 <= i < |c.n| ==> c.n[i].resides == -1 && c.n[i].prev == null && c.n[i].next == null)
    && c.resides' == c.v.st.resides - (set a | a in c.v.st.chains[c.k])
  }

  twostate lemma ResidesUnchained(c: Change)
    ensures PagesLeft(c) && Relinked(c) && old(ResidesOk(c.v.ps, c.v.st.resides)) ==> ResidesOk(c.v.ps, c.resides')
  {
    if PagesLeft(c) && Relinked(c) && old(ResidesOk(c.v.ps, c.v.st.resides)) {
      forall b | b in c.v.ps
        ensures c.v.ps[b] in c.v.ps.Values && c.v.ps[b].resides == (if b in c.resides' then c.resides'[b] else -1)
        ensures b !in c.resides' ==> c.v.ps[b].prev == null && c.v.ps[b].next == null
      {
        var s := c.v.st.chains[c.k];
        if b in s {
          var i :| 0 <= i < |s| && s[i] == b;
          assert c.n[i] == c.v.ps[b];
        } else {
          NotHeld(c.n, s, c.v.ps, b);
        }
      }
    }
  }

  twostate lemma ResidesDetached(c: Change)
    ensures PageLeft(c) && Relinked(c) && OneMoved(c) && old(ResidesOk(c.v.ps, c.v.st.resides)) ==> ResidesOk(c.v.ps, c.resides')
  {
    if PageLeft(c) && Relinked(c) && OneMoved(c) && old(ResidesOk(c.v.ps, c.v.st.resides)) {
      forall b | b in c.v.ps && b != c.a
        ensures c.v.ps[b] in c.v.ps.Values && c.v.ps[b] != c.page
      {
        assert c.v.ps[b].address == b && c.v.ps[c.a].address == c.a;
      }
    }
  }

  ghost predicate MarkChanged(c: Change)
    reads c.chain
  {
    && c.k in c.v.co && c.v.co[c.k] == c.chain && c.k in c.v.mk
    && MarkMatches(c.chain.timestamp, c.chain.representative, c.m', c.v.ps)
  }

  twostate lemma MarksKept(c: Change)
    ensures MarkChanged(c) && Relinked(c) && old(MarksMatch(c.v.ps, c.v.co, c.v.mk) && Separate(c.v.co, c.k, c.n))
      ==> MarksMatch(c.v.ps, c.v.co, c.v.mk[c.k := c.m'])
  {
    if MarkChanged(c) && Relinked(c) && old(MarksMatch(c.v.ps, c.v.co, c.v.mk) && Separate(c.v.co, c.k, c.n)) {
      forall l | l in c.v.co && l != c.k
        ensures c.v.co[l] in c.v.co.Values && MarkMatches(c.v.co[l].timestamp, c.v.co[l].representative, c.v.mk[l], c.v.ps)
      {
        var o := c.v.co[l];
        assert o in c.v.co.Values && Untouched(o) && old(MarkMatches(o.timestamp, o.representative, c.v.mk[l], c.v.ps));
      }
    }
  }

  twostate lemma AllRelinked(c: Change)
    ensures Relinked(c) && ChainChanged(c) && old(ChainsOk(c.v.ps, c.v.co, c.v.st.chains) && Separate(c.v.co, c.k, c.n))
      ==> ChainsOk(c.v.ps, c.v.co, c.v.st.chains[c.k := c.s'])
    ensures Relinked(c) && MarkChanged(c) && old(MarksMatch(c.v.ps, c.v.co, c.v.mk) && Separate(c.v.co, c.k, c.n))
      ==> MarksMatch(c.v.ps, c.v.co, c.v.mk[c.k := c.m'])
    ensures Relinked(c) && PagesLeft(c) && old(ResidesOk(c.v.ps, c.v.st.resides)) ==> ResidesOk(c.v.ps, c.resides')
    ensures Relinked(c) && OneMoved(c) && PageEntered(c) && old(ResidesOk(c.v.ps, c.v.st.resides)) ==> ResidesOk(c.v.ps, c.resides')
    ensures Relinked(c) && OneMoved(c) && PageLeft(c) && old(ResidesOk(c.v.ps, c.v.st.resides)) ==> ResidesOk(c.v.ps, c.resides')
  {
    hide *;
    ChainsRelinked(c);
    MarksKept(c);
    ResidesDetached(c);
    ResidesAttached(c);
    ResidesUnchained(c);
  }

  ghost predicate Maps(frames: seq<Page?>, mapping: map<int, nat>, resident: set<int>, ps: map<int, Page>) {
    && mapping.Keys == resident && resident <= ps.Keys
    && forall a :: a in mapping ==> mapping[a] < |frames| && frames[mapping[a]] == ps[a]
  }

  ghost predicate Numbered(ps: map<int, Page>, mapping: map<int, nat>)
    reads ps.Values`frame
  {
    forall a :: a in mapping && a in ps ==> ps[a] in ps.Values && ps[a].frame == mapping[a]
  }

  lemma MapsOccupy(frames: seq<Page?>, mapping: map<int, nat>, resident: set<int>, ps: map<int, Page>, a: int, f: nat)
    requires Maps(frames, mapping, resident, ps) && a in ps && f < |frames| && frames[f] == null
    ensures Maps(frames[f := ps[a]], mapping[a := f], resident + {a}, ps)
  {
  }

  lemma MapsVacate(frames: seq<Page?>, mapping: map<int, nat>, resident: set<int>, ps: map<int, Page>, a: int)
    requires Maps(frames, mapping, resident, ps) && Addressed(ps) && a in mapping
    ensures Maps(frames[mapping[a] := null], mapping - {a}, resident - {a}, ps)
  {
    forall b | b in mapping && b != a
      ensures mapping[b] != mapping[a]
    {
      assert ps[b].address == b && ps[a].address == a;
    }
  }

  /** A page gets a frame number and the others keep theirs. */
  twostate lemma NumberedOccupy(c: (map<int, Page>, map<int, nat>, Page, nat))
    ensures
      (old(Numbered(c.0, c.1)) && Addressed(c.0) && c.2.address in c.0 && c.0[c.2.address] == c.2 && c.2.frame == c.3 &&
       forall p :: p in c.0.Values && p != c.2 ==> p.frame == old(p.frame))
      ==> Numbered(c.0, c.1[c.2.address := c.3])
  {
    assert forall a :: a in c.0 ==> c.0[a] in c.0.Values;
    assert Addressed(c.0) ==> forall a :: a in c.0 ==> c.0[a].address == a;
  }

  /** Pages in the swap space are pages. */
  ghost predicate SwapOk(ps: map<int, Page>, sw: map<int, Page>) {
    forall a :: a in sw ==> a in ps && sw[a] == ps[a]
  }

  /** Every page ever used is resident or in the swap space. */
  ghost predicate Covered(resident: set<int>, ps: map<int, Page>, sw: map<int, Page>) {
    forall a :: a in ps ==> a in resident || a in sw
  }

  /** Chains, residence and marks are as v says. */
  ghost predicate Links(v: View)
    reads v.co.Values`nodes, v.co.Values`size, v.co.Values`head, v.co.Values`tail, v.co.Values`timestamp, v.co.Values`representative
    reads v.ps.Values`next, v.ps.Values`prev, v.ps.Values`resides
  {
    && Addressed(v.ps) && v.st.Placed()
    && ResidesOk(v.ps, v.st.resides) && ChainsOk(v.ps, v.co, v.st.chains) && MarksMatch(v.ps, v.co, v.mk)
  }

  ghost function NewView(clock: nat, hated: MemoryChain, spillover: MemoryChain, standard: MemoryChain): (v: View)
    ensures v.st == Empty(clock) && v.ps == map[] && v.co == map[HATED := hated, SPILLOVER := spillover, DEFAULT := standard]
    ensures v.co.Values == {hated, spillover, standard} && v.co.Keys == v.mk.Keys == {HATED, SPILLOVER, DEFAULT}
  {
    var co := map[HATED := hated, SPILLOVER := spillover, DEFAULT := standard];
    assert co[HATED] == hated && co[SPILLOVER] == spillover && co[DEFAULT] == standard;
    assert {co[HATED], co[SPILLOVER], co[DEFAULT]} <= co.Values;
    View(Empty(clock), map[HATED := Mark(0, None), SPILLOVER := Mark(0, None), DEFAULT := Mark(0, None)], map[], co)
  }

  ghost predicate IsNew(c: MemoryChain, k: int)
    reads c
  {
    c.size == 0 && c.head == null && c.id == k && c.nodes == [] && c.timestamp == 0 && c.representative == null
  }

  lemma NewLinks(clock: nat, hated: MemoryChain, spillover: MemoryChain, standard: MemoryChain)
    requires IsNew(hated, HATED) && IsNew(spillover, SPILLOVER) && IsNew(standard, DEFAULT)
    ensures Links(NewView(clock, hated, spillover, standard))
  {
    var v := NewView(clock, hated, spillover, standard);
    assert ChainsOk(v.ps, v.co, v.st.chains);
    assert MarksMatch(v.ps, v.co, v.mk);
  }

  lemma NewMarks(clock: nat, hated: MemoryChain, spillover: MemoryChain, standard: MemoryChain)
    ensures var v := NewView(clock, hated, spillover, standard); v.st.Ok() && MarksOk(v.st, v.mk) && Unbroken(v.st, v.mk)
  {
  }

  class HierarchicalMemoryManager {
    const size: nat
    var chainId: int
    const sysChains: seq<MemoryChain>
    var usrChains: map<int, MemoryChain>
    const memory: Memory
    const pageTable: PageTable
    const clock: LogicalClock
    var swap: map<int, Page>
    ghost var view: View

    ghost predicate ShapeOk(co: map<int, MemoryChain>)
      reads `usrChains, `chainId
    {
      && |sysChains| == 3 && chainId >= 3
      && co.Keys == {HATED, SPILLOVER, DEFAULT} + usrChains.Keys
      && (forall k :: 0 <= k < 3 ==> co[k] == sysChains[k])
      && (forall k :: k in usrChains ==> 3 <= k < chainId && co[k] == usrChains[k])
    }

    /** The frames hold the resident pages, as the page table says. */
    ghost predicate MemoryOk(resident: set<int>, ps: map<int, Page>)
      reads memory, memory.pages, pageTable, ps.Values`frame
    {
      && memory.Valid() && memory.pages.Length == size && |memory.bitmap| == |resident|
      && Maps(memory.pages[..], pageTable.mapping, resident, ps) && Numbered(ps, pageTable.mapping)
    }

    /** The objects are as v says. */
    ghost predicate Core(v: View)
      reads `usrChains, `chainId, `swap, memory, memory.pages, pageTable, clock, v.co.Values, v.ps.Values
    {
      && ShapeOk(v.co) && MemoryOk(v.st.resident, v.ps) && SwapOk(v.ps, swap) && clock.counter == v.st.clock
      && TimesOk(v.ps, v.st.stamp) && AssignedOk(v.ps, v.st.assignedTo) && MissesOk(v.ps, v.st.misses) && Links(v)
    }

    constructor (size: nat, clock: LogicalClock)
      ensures Valid() && this.size == size && this.clock == clock && chainId == 3 && usrChains == map[]
      ensures fresh(memory) && fresh(memory.pages) && fresh(pageTable) && fresh(view.co.Values) && view.ps == map[]
      ensures view.st == Empty(clock.counter) && Unbroken(view.st, view.mk)
    {
      hide Links, MemoryOk, TimesOk, AssignedOk, MissesOk, MarksOk, Unbroken, State.Ok, MemoryChain.Linked, ShapeOk, Elements, Distinct;
      this.size := size;
      this.clock := clock;
      var hated, spillover, standard := SystemChains();
      sysChains := [hated, spillover, standard];
      chainId := 3;
      usrChains := map[];
      memory := new Memory(size);
      pageTable := new PageTable();
      swap := map[];
      view := NewView(clock.counter, hated, spillover, standard);
      new;
      NewLinks(clock.counter, hated, spillover, standard);
      NewContents();
      NewShape(clock.counter, hated, spillover, standard);
      NewMarks(clock.counter, hated, spillover, standard);
    }

    static method SystemChains() returns (hated: MemoryChain, spillover: MemoryChain, standard: MemoryChain)
      ensures fresh(hated) && fresh(spillover) && fresh(standard)
      ensures IsNew(hated, HATED) && IsNew(spillover, SPILLOVER) && IsNew(standard, DEFAULT)
    {
      hated := new MemoryChain(HATED);
      spillover := new MemoryChain(SPILLOVER);
      standard := new MemoryChain(DEFAULT);
    }

    lemma NewShape(c: nat, hated: MemoryChain, spillover: MemoryChain, standard: MemoryChain)
      requires sysChains == [hated, spillover, standard] && usrChains == map[] && chainId == 3
      ensures ShapeOk(NewView(c, hated, spillover, standard).co)
    {
    }

    lemma NewContents()
      requires memory.Valid() && memory.pages.Length == size && memory.bitmap == {} && pageTable.mapping == map[]
      ensures MemoryOk({}, map[]) && TimesOk(map[], map[]) && AssignedOk(map[], map[]) && MissesOk(map[], map[])
    {
    }

    method UnlinkOnly(ghost c: Change, chain: MemoryChain, page: Page, ghost i: nat)
      requires chain == c.chain && c.chain.Valid() && page == c.page && page.resides != -1 && i < |c.n| && c.n[i] == page && c.n == c.chain.nodes
      requires c.chain in c.v.co.Values && Elements(c.n) <= c.v.ps.Values
      modifies c.chain, Elements(c.n)`next, Elements(c.n)`prev, page`resides
      ensures c.chain.Valid() && c.chain.timestamp == old(c.chain.timestamp) && c.chain.nodes == Cut(c.n, i)
      ensures c.chain.representative == if old(c.chain.representative) == page then null else old(c.chain.representative)
      ensures page.resides == -1 && page.prev == null && page.next == null
      ensures Relinked(c) && OneMoved(c)
    {
      hide MemoryChain.Valid, Cut;
      chain.Unlink(page, i);
    }

    /** chain.unlink(page) for the page at address a. */
    method DetachLinks(chain: MemoryChain, page: Page, ghost a: int, ghost v: View, ghost v': View)
      requires Links(v) && a in v.st.resides && a in v.ps && page == v.ps[a] && v.st.resides[a] != -1
      requires v.st.resides[a] in v.co && chain == v.co[v.st.resides[a]] && v.st.resides[a] in v.mk && v.st.resides[a] in v.st.chains
      requires v' == v.(st := v.st.Unlink(a), mk := v.mk[v.st.resides[a] := Forget(v.mk[v.st.resides[a]], a)])
      modifies chain, v.ps.Values`next, v.ps.Values`prev, page`resides
      ensures Links(v')
    {
      hide ResidesOk, ChainsOk, MarksMatch, Holds, State.Placed, Minus, Distinct, Cut, MemoryChain.Linked, MemoryChain.Valid, Relinked, OneMoved, Separate, AllHeld, State.Unlink, Forget, MarkMatches, Addressed;
      ghost var k, n := v.st.resides[a], chain.nodes;
      ghost var i := Position(v.st, a);
      MemberFacts(v.ps, v.co, v.st, k, i);
      ChainFacts(v.ps, v.co, v.st, k);
      PlacedUnlink(v.st, a);
      UnlinkFacts(v.st, a);
      HoldsCut(n, v.st.chains[k], v.ps, i);
      MarkForgets(v.ps, v.co, v.mk, k, a);
      ghost var c := Change(chain, n, page, a, k, v, v'.st.chains[k], v'.st.resides, v'.mk[k]);
      UnlinkOnly(c, chain, page, i);
      AllRelinked(c);
    }

    method Detach(chain: MemoryChain, page: Page, ghost a: int, ghost v: View) returns (ghost v': View)
      requires Core(v) && a in v.st.resides && a in v.ps && page == v.ps[a]
      requires v.st.resides[a] in v.co && chain == v.co[v.st.resides[a]] && v.st.resides[a] in v.mk && v.st.resides[a] in v.st.chains
      modifies v.co.Values, v.ps.Values`next, v.ps.Values`prev, v.ps.Values`resides
      ensures Core(v') && v' == v.(st := v.st.Unlink(a), mk := v.mk[v.st.resides[a] := Forget(v.mk[v.st.resides[a]], a)])
    {
      hide Links, MemoryOk, TimesOk, AssignedOk, MissesOk, State.Unlink, Forget;
      v' := v.(st := v.st.Unlink(a), mk := v.mk[v.st.resides[a] := Forget(v.mk[v.st.resides[a]], a)]);
      DetachLinks(chain, page, a, v, v');
      UnlinkFacts(v.st, a);
    }

    method LinkOnly(ghost c: Change, chain: MemoryChain, page: Page)
      requires chain == c.chain && c.chain.Valid() && page == c.page && c.n == [page] + chain.nodes && page !in chain.nodes
      requires page.resides == -1 && chain.id != -1 && page.prev == null && page.next == null
      requires c.chain in c.v.co.Values && Elements(c.n) <= c.v.ps.Values
      modifies chain, page`next, page`resides, Elements(chain.nodes)`prev
      ensures chain.Valid() && chain.nodes == c.n && page.resides == chain.id
      ensures chain.Represents(page, old(chain.timestamp), old(chain.representative))
      ensures Relinked(c) && OneMoved(c)
    {
      hide MemoryChain.Valid;
      chain.Link(page);
    }

    /** chain.link(page) for the page at address a, which resides nowhere. */
    method AttachLinks(chain: MemoryChain, page: Page, ghost a: int, ghost k: int, ghost v: View, ghost v': View)
      requires Links(v) && a !in v.st.resides && a in v.ps && page == v.ps[a] && k != -1
      requires k in v.co && chain == v.co[k] && k in v.mk && k in v.st.chains
      requires v' == v.(st := v.st.Link(k, a), mk := v.mk[k := Represent(v.mk[k], page.timestamp, a)])
      modifies chain, v.ps.Values`next, v.ps.Values`prev, page`resides
      ensures Links(v')
    {
      hide ResidesOk, ChainsOk, MarksMatch, Holds, State.Placed, Distinct, MemoryChain.Linked, MemoryChain.Valid, Relinked, OneMoved, Separate, AllHeld, State.Link, Represent, MarkMatches, Addressed;
      ghost var n := [page] + chain.nodes;
      OutsiderFacts(v.ps, v.co, v.st, k, a);
      PlacedLink(v.st, k, a);
      LinkFacts(v.st, k, a);
      MarkRepresents(v, k, a);
      ghost var c := Change(chain, n, page, a, k, v, v'.st.chains[k], v'.st.resides, v'.mk[k]);
      LinkOnly(c, chain, page);
      AllRelinked(c);
    }

    method Attach(chain: MemoryChain, page: Page, ghost a: int, ghost k: int, ghost v: View) returns (ghost v': View)
      requires Core(v) && a !in v.st.resides && a in v.ps && page == v.ps[a]
      requires k in v.co && chain == v.co[k] && k in v.mk && k in v.st.chains && a in v.st.stamp
      modifies v.co.Values, v.ps.Values`next, v.ps.Values`prev, v.ps.Values`resides
      ensures Core(v') && v' == v.(st := v.st.Link(k, a), mk := v.mk[k := Represent(v.mk[k], v.st.stamp[a], a)])
    {
      hide Links, MemoryOk, TimesOk, AssignedOk, MissesOk, State.Link, Represent;
      DataFacts(v, a);
      v' := v.(st := v.st.Link(k, a), mk := v.mk[k := Represent(v.mk[k], page.timestamp, a)]);
      AttachLinks(chain, page, a, k, v, v');
      LinkFacts(v.st, k, a);
    }

    static method AssignOnly(page: Page, k: int, ghost a: int, ghost ps: map<int, Page>, ghost m: map<int, int>)
      requires AssignedOk(ps, m) && Addressed(ps) && a in ps && page == ps[a]
      modifies page`assignedTo
      ensures AssignedOk(ps, m[a := k])
    {
      page.assignedTo := k;
      assert forall b :: b in ps ==> ps[b].address == b;
    }

    /** page.assigned = k. */
    method Assign(page: Page, ghost a: int, k: int, ghost v: View) returns (ghost v': View)
      requires Core(v) && a in v.ps && page == v.ps[a]
      modifies page`assignedTo
      ensures Core(v') && v' == v.(st := v.st.Assign(a, k))
    {
      hide Links, MemoryOk, TimesOk, AssignedOk, MissesOk;
      v' := v.(st := v.st.Assign(a, k));
      AssignLinks(v, a, k);
      AssignOnly(page, k, a, v.ps, v.st.assignedTo);
    }

    method RefOnly(page: Page, ghost a: int, ghost ps: map<int, Page>, ghost m: map<int, nat>)
      requires TimesOk(ps, m) && Addressed(ps) && a in ps && page == ps[a]
      modifies page`hits, page`timestamp, page`referenced, clock
      ensures clock.counter == old(clock.counter) + 1 && TimesOk(ps, m[a := clock.counter])
    {
      page.Ref(clock);
      assert forall b :: b in ps ==> ps[b].address == b;
    }

    /** page.ref(). */
    method Ref(page: Page, ghost a: int, ghost v: View) returns (ghost v': View)
      requires Core(v) && a in v.ps && page == v.ps[a]
      modifies page`hits, page`timestamp, page`referenced, clock
      ensures Core(v') && v' == v.(st := v.st.Hit(a))
    {
      hide Links, MemoryOk, TimesOk, AssignedOk, MissesOk;
      v' := v.(st := v.st.Hit(a));
      HitLinks(v, a);
      RefOnly(page, a, v.ps, v.st.stamp);
    }

    /** chain.representative(page) for a page that resides in the chain. */
    method Notify(chain: MemoryChain, page: Page, ghost a: int, ghost v: View) returns (ghost v': View)
      requires Core(v) && a in v.st.resides && a in v.ps && page == v.ps[a]
      requires v.st.resides[a] in v.co && chain == v.co[v.st.resides[a]] && v.st.resides[a] in v.mk && a in v.st.stamp
      modifies chain`timestamp, chain`representative
      ensures Core(v') && v' == v.(mk := v.mk[v.st.resides[a] := Represent(v.mk[v.st.resides[a]], v.st.stamp[a], a)])
    {
      hide Links, MemoryOk, TimesOk, AssignedOk, MissesOk, Represent;
      v' := v.(mk := v.mk[v.st.resides[a] := Represent(v.mk[v.st.resides[a]], v.st.stamp[a], a)]);
      DataFacts(v, a);
      RepresentLinks(chain, page, a, v.st.resides[a], v, v');
    }

    method RepresentLinks(chain: MemoryChain, page: Page, ghost a: int, ghost k: int, ghost v: View, ghost v': View)
      requires Links(v) && a in v.st.resides && a in v.ps && page == v.ps[a] && k == v.st.resides[a]
      requires k in v.co && chain == v.co[k] && k in v.mk
      requires v' == v.(mk := v.mk[k := Represent(v.mk[k], page.timestamp, a)])
      modifies chain`timestamp, chain`representative
      ensures Links(v')
    {
      hide ResidesOk, ChainsOk, MarksMatch, State.Placed, Represent, MarkMatches, Addressed, AllHeld, Separate, Holds, MemoryChain.Valid;
      ghost var i := Position(v.st, a);
      MemberFacts(v.ps, v.co, v.st, k, i);
      ChainFacts(v.ps, v.co, v.st, k);
      AddressedAt(v.ps, a);
      RepresentOnly(chain, page, k, v, v'.mk[k]);
    }

    static method RepresentOnly(chain: MemoryChain, page: Page, ghost k: int, ghost v: View, ghost m: Mark)
      requires MarksMatch(v.ps, v.co, v.mk) && k in v.co && chain == v.co[k] && k in v.mk && page.resides == chain.id
      requires Alone(v.co, k) && m == Represent(v.mk[k], page.timestamp, page.address)
      requires page.address in v.ps && page == v.ps[page.address]
      modifies chain`timestamp, chain`representative
      ensures MarksMatch(v.ps, v.co, v.mk[k := m])
    {
      assert MarkMatches(chain.timestamp, chain.representative, v.mk[k], v.ps);
      chain.Represent(page);
    }

    /** memory.store(page, frame) and pageTable.add for a page that is not resident. */
    method OccupyOnly(page: Page, frame: nat, ghost resident: set<int>, ghost ps: map<int, Page>)
      requires MemoryOk(resident, ps) && frame < size && frame !in memory.bitmap && Addressed(ps)
      requires page.address in ps && page == ps[page.address] && page.address !in resident
      modifies memory, memory.pages, page`frame, pageTable
      ensures MemoryOk(resident + {page.address}, ps)
    {
      hide Maps, Numbered;
      ghost var frames, mapping := memory.pages[..], pageTable.mapping;
      MapsOccupy(frames, mapping, resident, ps, page.address, frame);
      MapsKeys(frames, mapping, resident, ps);
      var swapped := memory.Store(page, frame);
      assert Numbered(ps, mapping[page.address := frame]) by { NumberedOccupy((ps, mapping, page, frame)); }
      pageTable.Add(page.address, frame);
    }

    method Occupy(page: Page, frame: nat, ghost v: View) returns (ghost v': View)
      requires Core(v) && frame < size && frame !in memory.bitmap
      requires page.address in v.ps && page == v.ps[page.address] && page.address !in v.st.resident
      modifies memory, memory.pages, page`frame, pageTable
      ensures Core(v') && v' == v.(st := v.st.Occupy(page.address))
    {
      hide Links, MemoryOk, TimesOk, AssignedOk, MissesOk, ShapeOk, SwapOk;
      v' := v.(st := v.st.Occupy(page.address));
      OccupyLinks(v, page.address);
      LinksAddressed(v);
      OccupyOnly(page, frame, v.st.resident, v.ps);
    }

    /** memory.store(null, page.frame) and pageTable.remove for a resident page. */
    method VacateOnly(page: Page, ghost resident: set<int>, ghost ps: map<int, Page>)
      requires MemoryOk(resident, ps) && Addressed(ps)
      requires page.address in resident && page.address in ps && page == ps[page.address]
      modifies memory, memory.pages, pageTable
      ensures MemoryOk(resident - {page.address}, ps)
    {
      hide Maps;
      MapsKeys(memory.pages[..], pageTable.mapping, resident, ps);
      MapsVacate(memory.pages[..], pageTable.mapping, resident, ps, page.address);
      assert page.frame == pageTable.mapping[page.address];
      var swapped := memory.Store(null, page.frame);
      pageTable.Remove(page.address);
    }

    method Vacate(page: Page, ghost v: View) returns (ghost v': View)
      requires Core(v)
      requires page.address in v.st.resident && page.address in v.ps && page == v.ps[page.address]
      modifies memory, memory.pages, pageTable, `swap
      ensures Core(v') && v' == v.(st := v.st.Vacate(page.address)) && swap == old(swap)[page.address := page]
    {
      hide Links, MemoryOk, TimesOk, AssignedOk, MissesOk, ShapeOk;
      v' := v.(st := v.st.Vacate(page.address));
      OccupyLinks(v, page.address);
      LinksAddressed(v);
      VacateOnly(page, v.st.resident, v.ps);
      swap := swap[page.address := page];
    }

    /** load(address): the page comes from the swap space, or is new. */
    method Fetch(address: int, ghost v: View) returns (page: Page, ghost v': View)
      requires Core(v) && v.st.Known() && address !in v.st.resident && Covered(v.st.resident, v.ps, swap)
      ensures Core(v') && Met(v, v', address, page) && (address !in v.ps ==> fresh(page))
    {
      hide Core, Covered;
      FetchFacts(address, v);
      if address in swap {
        page := swap[address];
        v' := v;
      } else {
        page := new Page(address);
        MeetCore(v, address, page);
        v' := v.(st := v.st.Meet(address), ps := v.ps[address := page]);
      }
    }

    lemma FetchFacts(a: int, v: View)
      requires Core(v) && a !in v.st.resident && Covered(v.st.resident, v.ps, swap)
      ensures a in swap <==> a in v.ps
      ensures a in swap ==> swap[a] == v.ps[a] && swap[a].address == a && a in v.st.stamp
    {
      hide MemoryOk, AssignedOk, MissesOk, ShapeOk;
    }

    lemma MeetCore(v: View, a: int, page: Page)
      requires Core(v) && a !in v.ps && page.address == a && page.timestamp == 0 && page.misses == 0
      requires page.assignedTo == -1 && page.resides == -1 && page.prev == null && page.next == null
      ensures Core(v.(st := v.st.Meet(a), ps := v.ps[a := page]))
    {
      hide Links, MemoryOk, TimesOk, AssignedOk, MissesOk, ShapeOk;
      MeetData(v, a, page);
      MeetLinks(v, a, page);
      MeetMemory(v.st.resident, v.ps, a, page);
    }

    lemma MeetMemory(resident: set<int>, ps: map<int, Page>, a: int, page: Page)
      requires MemoryOk(resident, ps) && a !in ps
      ensures MemoryOk(resident, ps[a := page])
    {
      var ps' := ps[a := page];
      assert forall b :: b in ps ==> b in ps' && ps'[b] == ps[b] && ps'[b] in ps'.Values;
    }

    /** page.load(). */
    method LoadOnly(page: Page, ghost a: int, ghost ps: map<int, Page>, ghost m: map<int, nat>, ghost n: map<int, nat>)
      requires TimesOk(ps, m) && MissesOk(ps, n) && Addressed(ps) && a in ps && page == ps[a]
      modifies page`misses, page`timestamp, clock
      ensures a in n && clock.counter == old(clock.counter) + 1 && TimesOk(ps, m[a := clock.counter]) && MissesOk(ps, n[a := n[a] + 1])
    {
      page.Load(clock);
      assert forall b :: b in ps ==> ps[b].address == b;
    }

    method Load(page: Page, ghost a: int, ghost v: View) returns (ghost v': View)
      requires Core(v) && a in v.ps && page == v.ps[a]
      modifies page`misses, page`timestamp, clock
      ensures a in v.st.misses && Core(v') && v' == v.(st := v.st.Loaded(a))
    {
      hide Links, MemoryOk, TimesOk, AssignedOk, MissesOk, ShapeOk;
      DataFacts(v, a);
      v' := v.(st := v.st.Loaded(a));
      LoadedLinks(v, a);
      LinksAddressed(v);
      LoadOnly(page, a, v.ps, v.st.stamp, v.st.misses);
    }

    /** chain.timestamp() */
    method AskTimestamp(chain: MemoryChain, ghost k: int, ghost v: View) returns (t: int, ghost v': View)
      requires Core(v) && v.st.Stamped() && v.st.Known() && k in v.co && chain == v.co[k] && k in v.st.chains && k in v.mk && v.st.chains[k] != []
      modifies chain`timestamp, chain`representative
      ensures Core(v') && k in v'.mk && v' == v.(mk := v.mk[k := v'.mk[k]]) && Refreshed(v.st, v.mk[k], v'.mk[k], v.st.chains[k])
      ensures t == Effective(v.st, v.mk[k], v.st.chains[k])
    {
      hide Links, MemoryOk, TimesOk, AssignedOk, MissesOk, ShapeOk;
      t, v' := AskLinks(chain, k, v);
    }

    static method AskLinks(chain: MemoryChain, ghost k: int, ghost v: View) returns (t: int, ghost v': View)
      requires Links(v) && TimesOk(v.ps, v.st.stamp) && v.st.Stamped()
      requires k in v.co && chain == v.co[k] && k in v.st.chains && k in v.mk && v.st.chains[k] != []
      modifies chain`timestamp, chain`representative
      ensures Links(v') && k in v'.mk && v' == v.(mk := v.mk[k := v'.mk[k]]) && Refreshed(v.st, v.mk[k], v'.mk[k], v.st.chains[k])
      ensures t == Effective(v.st, v.mk[k], v.st.chains[k])
    {
      hide ResidesOk, ChainsOk, MarksMatch, State.Placed, State.Stamped, Addressed, Alone, MemoryChain.Valid, TimesOk, Refreshed, Effective;
      AskReady(v, k);
      ghost var m;
      t, m := AskOnly(chain, k, v);
      AskMeans(v.st, v.mk[k], v.st.chains[k], t, m);
      assert ResidesOk(v.ps, v.st.resides);
      assert ChainsOk(v.ps, v.co, v.st.chains);
      v' := v.(mk := v.mk[k := m]);
    }

    static lemma AskReady(v: View, k: int)
      requires Links(v) && TimesOk(v.ps, v.st.stamp) && v.st.Stamped() && k in v.co && k in v.st.chains && v.st.chains[k] != []
      ensures v.co[k].Valid() && Alone(v.co, k) && MemoryChains.Latest(v.co[k].nodes) == Paging.Latest(v.st.stamp, v.st.chains[k]) > 0
      ensures forall p :: p in v.co[k].nodes ==> p.address in v.ps && v.ps[p.address] == p
      ensures forall p :: p in v.co[k].nodes ==>
        p.address in v.st.chains[k] && p.address in v.st.stamp && v.st.stamp[p.address] == p.timestamp
    {
      hide ResidesOk, ChainsOk, MarksMatch, State.Placed, Addressed, AllHeld, Separate, Holds, MemoryChain.Valid, TimesOk;
      ChainFacts(v.ps, v.co, v.st, k);
      StampsAgree(v.co[k].nodes, v.st.chains[k], v.ps, v.st.stamp);
      ChainStamps(v.co[k].nodes, v.st.chains[k], v.ps, v.st);
    }

    static method AskOnly(chain: MemoryChain, ghost k: int, ghost v: View) returns (t: int, ghost m: Mark)
      requires MarksMatch(v.ps, v.co, v.mk) && k in v.co && chain == v.co[k] && k in v.mk && Alone(v.co, k)
      requires chain.Valid() && MemoryChains.Latest(chain.nodes) > 0
      requires forall p :: p in chain.nodes ==> p.address in v.ps && v.ps[p.address] == p
      modifies chain`timestamp, chain`representative
      ensures MarksMatch(v.ps, v.co, v.mk[k := m])
      ensures v.mk[k].rep.Some? ==> m == v.mk[k] && t == m.stamp
      ensures v.mk[k].rep.None? ==>
        && t == m.stamp == MemoryChains.Latest(chain.nodes)
        && m.rep.Some? && exists p :: p in chain.nodes && p.timestamp == t && m.rep.value == p.address
    {
      ChainMark(v, k);
      t := chain.Timestamp();
      m := v.mk[k];
      if m.rep.None? {
        m := Mark(t, Some(chain.representative.address));
      }
    }

    /** The members of a chain as addresses and stamps. */
    lemma ChainView(v: View, k: int)
      requires Core(v) && v.st.Stamped() && k in v.co
      ensures k in v.st.chains && v.co[k].Valid()
      ensures forall p :: p in v.co[k].nodes ==> p.address in v.ps && v.ps[p.address] == p && p.address in v.st.chains[k]
      ensures forall p :: p in v.co[k].nodes ==> StampAt(v.st.stamp, p.address) == p.timestamp <= clock.counter
      ensures forall a :: a in v.st.chains[k] ==> a in v.ps && v.ps[a] in v.co[k].nodes && v.ps[a].address == a
      ensures (v.co[k].nodes == []) == (v.st.chains[k] == [])
    {
      hide MemoryOk, AssignedOk, MissesOk, ShapeOk, ResidesOk, MarksMatch, State.Placed, MemoryChain.Linked, Distinct;
      assert ChainOk(v.ps, v.co[k], k, v.st.chains[k]);
      ChainStamps(v.co[k].nodes, v.st.chains[k], v.ps, v.st);
      forall a | a in v.st.chains[k]
        ensures a in v.ps && v.ps[a] in v.co[k].nodes && v.ps[a].address == a
      {
        var i :| 0 <= i < |v.st.chains[k]| && v.st.chains[k][i] == a;
        assert v.co[k].nodes[i] == v.ps[a];
      }
    }

    /** The loop over a chain of the system: its oldest page, if that is older than limit. */
    method FindOldest(chain: MemoryChain, limit: int, ghost k: int, ghost v: View) returns (page: Page?, minimum: int)
      requires Core(v) && v.st.Stamped() && k in v.co && chain == v.co[k] && k in v.st.chains
      ensures page == null ==> minimum == limit && forall u :: u in v.st.chains[k] ==> StampAt(v.st.stamp, u) >= limit
      ensures page != null ==>
        && page.address in v.ps && page == v.ps[page.address] && Oldest(v.st, page.address, v.st.chains[k])
        && StampAt(v.st.stamp, page.address) == minimum < limit
    {
      hide Core, MemoryChain.Valid, State.Stamped, StampAt;
      ChainView(v, k);
      page, minimum := chain.OldestBelow(limit);
    }

    /** victim() of a user chain. */
    method FindVictim(chain: MemoryChain, ghost k: int, ghost v: View) returns (page: Page)
      requires Core(v) && v.st.Stamped() && k in v.co && chain == v.co[k] && k in v.st.chains && v.st.chains[k] != []
      ensures page.address in v.ps && page == v.ps[page.address] && Oldest(v.st, page.address, v.st.chains[k])
    {
      hide Core, MemoryChain.Valid, State.Stamped, StampAt;
      ChainView(v, k);
      var p := chain.Victim(clock);
      page := p;
    }

    /** The tail of a chain that is not empty. */
    method FindTail(chain: MemoryChain, ghost k: int, ghost v: View) returns (page: Page)
      requires Core(v) && v.st.Stamped() && k in v.co && chain == v.co[k] && k in v.st.chains && v.st.chains[k] != []
      ensures page.address in v.ps && page == v.ps[page.address] && page.address == v.st.chains[k][|v.st.chains[k]| - 1]
    {
      hide MemoryOk, AssignedOk, MissesOk, ShapeOk, ResidesOk, MarksMatch, State.Placed, MemoryChain.Linked, Distinct;
      ChainView(v, k);
      assert ChainOk(v.ps, v.co[k], k, v.st.chains[k]);
      page := chain.tail;
    }

    /** Refreshing marks changes no cached timestamp. */
    ghost predicate Asked(v: View, v': View) {
      && v' == v.(mk := v'.mk) && MarksOk(v'.st, v'.mk) && (Unbroken(v.st, v.mk) ==> Unbroken(v'.st, v'.mk))
      && v'.mk.Keys == v.mk.Keys == v.st.chains.Keys
      && forall k :: k in v.st.chains ==> Effective(v.st, v'.mk[k], v.st.chains[k]) == Effective(v.st, v.mk[k], v.st.chains[k])
    }

    lemma AskedAgain(v: View, v': View, v'': View, k: int)
      requires Asked(v, v') && v.st.Ok() && k in v'.mk && k in v''.mk && k in v.st.chains
      requires v'' == v'.(mk := v'.mk[k := v''.mk[k]]) && Refreshed(v.st, v'.mk[k], v''.mk[k], v.st.chains[k])
      ensures Asked(v, v'')
    {
      hide Effective, Refreshed, State.Ok;
      MarksRefresh(v.st, v'.mk, k, v''.mk[k]);
    }

    /** The chains ks have been searched. */
    ghost predicate Searched(v: View, v1: View, page: Page?, chain: MemoryChain?, best: Option<int>, minimum: int, ks: set<int>)
      reads `usrChains, `chainId, `swap, memory, memory.pages, pageTable, clock, v1.co.Values, v1.ps.Values
    {
      && Core(v1) && Asked(v, v1) && v.st.Ok() && MarksOk(v.st, v.mk) && PageOf(page, chain, best, v)
      && BestOf(v.st, v.mk, ks, best, minimum) && AskedMarks(v.st, v.mk, v1.mk, ks)
    }

    /** One user chain of the search: its victim is the best so far if the chain is older. */
    method SearchChain(c: MemoryChain, page: Page?, chain: MemoryChain?, minimum: int,
                       ghost k: int, ghost ks: set<int>, ghost best: Option<int>, ghost v: View, ghost v1: View)
      returns (page': Page?, chain': MemoryChain?, minimum': int, ghost best': Option<int>, ghost v2: View)
      requires Searched(v, v1, page, chain, best, minimum, ks) && k in v.co && !IsSystem(k) && c == v.co[k] && k !in ks
      modifies c`timestamp, c`representative
      ensures Searched(v, v2, page', chain', best', minimum', ks + {k}) && v2 == v1.(mk := v2.mk)
    {
      hide Core, Effective, MarksOk, State.Placed, State.Assigned, BestOf, Oldest, Refreshed, Unbroken, AskedMarks;
      page', chain', minimum', best', v2 := page, chain, minimum, best, v1;
      ChainSize(v1, k);
      if c.size > 0 {
        var t;
        t, v2 := AskTimestamp(c, k, v1);
        AskedAgain(v, v1, v2, k);
        if t < minimum {
          var p := FindVictim(c, k, v2);
          BestTake(v.st, v.mk, ks, best, minimum, k, p.address);
          OldestFacts(v.st, k, p.address);
          page', chain', minimum', best' := p, c, t, Some(p.address);
        } else {
          BestSkip(v.st, v.mk, ks, best, minimum, k);
        }
      } else {
        BestSkip(v.st, v.mk, ks, best, minimum, k);
      }
      AskedNext(v.st, v.mk, v1.mk, v2.mk, ks, k);
    }

    lemma ChainSize(v: View, k: int)
      requires Core(v) && k in v.co
      ensures k in v.st.chains && k in v.mk && v.co[k].size == |v.st.chains[k]|
    {
      hide MemoryOk, AssignedOk, MissesOk, ShapeOk, ResidesOk, State.Placed, MemoryChain.Linked, Distinct;
      assert ChainOk(v.ps, v.co[k], k, v.st.chains[k]);
    }

    /** The search through the user chains, in any order. */
    method SearchUsers(page0: Page?, chain0: MemoryChain?, minimum0: int, ghost best0: Option<int>, ghost v: View)
      returns (page: Page?, chain: MemoryChain?, ghost best: Option<int>, ghost minimum': int, ghost v': View)
      requires Searched(v, v, page0, chain0, best0, minimum0, {DEFAULT})
      modifies v.co.Values`timestamp, v.co.Values`representative
      ensures Searched(v, v', page, chain, best, minimum', v.st.chains.Keys - {HATED, SPILLOVER})
    {
      hide Searched;
      page, chain, v', best := page0, chain0, v, best0;
      var minimum := minimum0;
      var users := usrChains;
      var remaining := users.Keys;
      SearchShape(v, page, chain, best, minimum);
      ghost var ks, all := {DEFAULT}, v.st.chains.Keys - {HATED, SPILLOVER};
      assert ks + remaining == all;
      while exists k :: k in remaining
        invariant Searched(v, v', page, chain, best, minimum, ks) && v' == v.(mk := v'.mk)
        invariant ks + remaining == all && remaining <= users.Keys && ks !! remaining
        decreases |remaining|
      {
        var k :| k in remaining;
        page, chain, minimum, best, v' := SearchChain(users[k], page, chain, minimum, k, ks, best, v, v');
        remaining, ks := remaining - {k}, ks + {k};
      }
      assert ks == all;
      minimum' := minimum;
    }

    lemma SearchShape(v: View, page: Page?, chain: MemoryChain?, best: Option<int>, minimum: int)
      requires Searched(v, v, page, chain, best, minimum, {DEFAULT})
      ensures forall k :: k in usrChains ==> !IsSystem(k) && k in v.co && v.co[k] == usrChains[k] && v.co[k] in v.co.Values
      ensures v.st.chains.Keys - {HATED, SPILLOVER} == {DEFAULT} + usrChains.Keys
    {
      hide MemoryOk, TimesOk, AssignedOk, MissesOk, State.Ok, MarksOk, BestOf, Asked, PageOf, AskedMarks;
      ShapeFacts(v);
    }

    /** The choice of a chain and a page in it. */
    method ChooseVictim(ghost w: int, ghost v: View) returns (page: Page, chain: MemoryChain, ghost v': View)
      requires Core(v) && v.st.Ok() && MarksOk(v.st, v.mk) && w in v.st.resident
      modifies v.co.Values`timestamp, v.co.Values`representative
      ensures Core(v') && Asked(v, v') && v.mk.Keys == v.st.chains.Keys && Chosen(v.st, v.mk, page.address)
      ensures PageOf(page, chain, Some(page.address), v) && AskedMarks(v.st, v.mk, v'.mk, Contestants(v.st))
    {
      hide Core, Effective, MarksOk, State.Placed, State.Assigned, State.Stamped, BestOf, Oldest, Unbroken, AskedMarks;
      ShapeFacts(v);
      ChainSizes(v);
      Unasked(v);
      NoneAsked(v.st, v.mk);
      v' := v;
      if sysChains[HATED].size > 0 {
        chain := sysChains[HATED];
        page := FindTail(chain, HATED, v);
        LinkedFacts(v.st, HATED, page.address);
      } else if sysChains[SPILLOVER].size > 0 {
        chain := sysChains[SPILLOVER];
        var p, m := FindOldest(chain, clock.counter + 1, SPILLOVER, v);
        NotLater(v.st, SPILLOVER, clock.counter + 1);
        page := p;
        OldestFacts(v.st, SPILLOVER, page.address);
      } else {
        var p, m := FindOldest(sysChains[DEFAULT], clock.counter + 1, DEFAULT, v);
        ghost var best := if p == null then None else Some(p.address);
        BestDefault(v.st, v.mk, best, m);
        if best.Some? {
          OldestFacts(v.st, DEFAULT, best.value);
        }
        var c := if p == null then null else sysChains[DEFAULT];
        ghost var m';
        p, c, best, m', v' := SearchUsers(p, c, m, best, v);
        BestDone(v.st, v.mk, best, m', w);
        page, chain := p, c;
      }
    }

    lemma Unasked(v: View)
      requires MarksOk(v.st, v.mk)
      ensures Asked(v, v)
    {
    }

    lemma ChainSizes(v: View)
      requires Core(v)
      ensures forall k :: k in v.co ==> k in v.st.chains && v.co[k].size == |v.st.chains[k]|
      ensures clock.counter == v.st.clock
    {
      forall k | k in v.co
        ensures k in v.st.chains && v.co[k].size == |v.st.chains[k]|
      {
        ChainSize(v, k);
      }
    }

    lemma ShapeFacts(v: View)
      requires Core(v)
      ensures |sysChains| == 3 && forall k :: k in {HATED, SPILLOVER, DEFAULT} ==> k in v.co && v.co[k] == sysChains[k]
      ensures forall k :: k in usrChains ==> 3 <= k < chainId && k in v.co && v.co[k] == usrChains[k]
      ensures v.co.Keys == v.st.chains.Keys == v.mk.Keys == {HATED, SPILLOVER, DEFAULT} + usrChains.Keys
      ensures forall k :: k in v.co ==> v.co[k] in v.co.Values
    {
    }

    /** v stands for a state between two calls. */
    ghost predicate Settled(v: View)
      reads `usrChains, `chainId, `swap, memory, memory.pages, pageTable, clock, v.co.Values, v.ps.Values
    {
      Core(v) && v.st.Ok() && MarksOk(v.st, v.mk) && Covered(v.st.resident, v.ps, swap)
    }

    /** evict() */
    method Evict(ghost w: int, ghost v: View) returns (ghost a: int, ghost v': View)
      requires Settled(v) && w in v.st.resident
      modifies `swap, memory, memory.pages, pageTable, v.co.Values, v.ps.Values`next, v.ps.Values`prev, v.ps.Values`resides
      ensures Settled(v') && v.mk.Keys == v.st.chains.Keys && Chosen(v.st, v.mk, a) && a in v.st.resident
      ensures a in v.st.resides && v.st.resides[a] in v.st.chains && v' == v.(st := v.st.Evict(a), mk := v'.mk)
      ensures EvictedMarks(v.st, v.mk, a, v'.mk) && (Unbroken(v.st, v.mk) ==> Unbroken(v'.st, v'.mk))
    {
      hide Core, MarksOk, State.Ok, Chosen, Unbroken, Covered, Effective, AskedMarks, EvictedMarks, Contestants;
      var page, chain;
      ghost var v1, v2;
      ShapeFacts(v);
      page, chain, v1 := ChooseVictim(w, v);
      a := page.address;
      ChosenIsResident(v.st, v.mk, a);
      EvictFacts(v, v1, a);
      v2 := Detach(chain, page, a, v1);
      v' := Vacate(page, v2);
      EvictOk(v.st, a);
      EvictMarked(v.st, v.mk, v1.mk, a);
    }

    lemma EvictFacts(v: View, v1: View, a: int)
      requires Core(v1) && v.st.Ok() && Covered(v.st.resident, v.ps, swap) && Asked(v, v1) && a in v.st.resides && a in v.ps
      ensures v.st.resides[a] in v.st.chains && v.st.resides[a] in v1.mk && v.st.resides[a] in v.co
      ensures MarksOk(v.st.Evict(a), v1.mk[v.st.resides[a] := Forget(v1.mk[v.st.resides[a]], a)])
      ensures Unbroken(v.st, v.mk) ==> Unbroken(v.st.Evict(a), v1.mk[v.st.resides[a] := Forget(v1.mk[v.st.resides[a]], a)])
      ensures Covered(v.st.resident - {a}, v.ps, swap[a := v.ps[a]])
    {
      hide Core, Forget, State.Ok, MarksOk, Unbroken, Effective;
      ShapeFacts(v1);
      MarksEvict(v.st, v1.mk, a);
    }

    /** The page fault once there is a free frame, up to the link into the chain. */
    method Admit(address: int, frame: nat, ghost v: View) returns (page: Page, ghost v': View)
      requires Settled(v) && address !in v.st.resident && frame < size && frame !in memory.bitmap
      modifies memory, memory.pages, pageTable, clock, v.ps.Values
      ensures Core(v') && v' == v.(st := v.st.Admit(address), ps := v.ps[address := page])
      ensures page.address == address && (if address in v.ps then page == v.ps[address] else fresh(page))
    {
      hide Core, MarksOk, Unbroken, Covered, State.Placed, State.Stamped, State.Assigned, State.Loaded, State.Meet, State.Hit, State.Occupy, State.Admit;
      AdmitSteps(v.st, address);
      ghost var v1, v2, v3;
      page, v1 := Fetch(address, v);
      InPages(v, address, page);
      v2 := Load(page, address, v1);
      v3 := Ref(page, address, v2);
      SameResident(v.st, address);
      v' := Occupy(page, frame, v3);
    }

    lemma InPages(v: View, a: int, page: Page)
      ensures a in v.ps[a := page] && v.ps[a := page][a] == page
      ensures v.ps[a := page].Values <= v.ps.Values + {page} && (a in v.ps && page == v.ps[a] ==> page in v.ps.Values && v.ps[a := page] == v.ps)
    {
    }

    /** The chain a loaded page goes to: the one it is assigned to, the standard chain if there is none. */
    method HomeChain(page: Page, ghost a: int, ghost v: View) returns (chain: MemoryChain)
      requires Core(v) && a in v.ps && page == v.ps[a] && v.st.Home(a) in v.st.chains && v.st.Home(a) != -1
      ensures v.st.Home(a) in v.co && chain == v.co[v.st.Home(a)] && v.st.Home(a) in v.mk && a in v.st.stamp
    {
      hide MemoryOk, TimesOk, AssignedOk, MissesOk, ShapeOk, Links;
      DataFacts(v, a);
      ShapeFacts(v);
      if page.assignedTo != -1 {
        if IsSystem(page.assignedTo) {
          chain := sysChains[page.assignedTo];
        } else {
          chain := usrChains[page.assignedTo];
        }
      } else {
        chain := sysChains[DEFAULT];
      }
    }

    method BringIn(address: int, frame: nat, ghost v: View) returns (page: Page, ghost v': View)
      requires Settled(v) && address !in v.st.resident && frame < size && frame !in memory.bitmap && v.st.Home(address) in v.st.chains
      modifies memory, memory.pages, pageTable, clock, v.ps.Values, v.co.Values
      ensures Settled(v') && v.st.Home(address) in v.mk
      ensures v' == View(v.st.Miss(address), v.mk[v.st.Home(address) := Represent(v.mk[v.st.Home(address)], v.st.clock + 2, address)],
                         v.ps[address := page], v.co)
      ensures page.address == address && (if address in v.ps then page == v.ps[address] else fresh(page))
      ensures Unbroken(v.st, v.mk) ==> Unbroken(v'.st, v'.mk)
    {
      hide Core, MarksOk, Unbroken, Covered, State.Ok, State.Admit, State.Link, Represent;
      ghost var v1;
      MissOk(v.st, address);
      MissMarks(v.st, v.mk, address);
      page, v1 := Admit(address, frame, v);
      InPages(v, address, page);
      var chain := HomeChain(page, address, v1);
      v' := Attach(chain, page, address, v.st.Home(address), v1);
      CoveredIn(v, address, page);
    }

    lemma CoveredIn(v: View, a: int, page: Page)
      requires Covered(v.st.resident, v.ps, swap) && v.st.Home(a) in v.st.chains
      ensures Covered(v.st.Miss(a).resident, v.ps[a := page], swap)
    {
    }

    /** The end of access(): a user chain hears of the use of one of its pages. */
    method Touch(page: Page, ghost a: int, ghost v: View) returns (ghost v': View)
      requires Core(v) && a in v.ps && page == v.ps[a] && a in v.st.resides && v.st.resides[a] in v.mk && a in v.st.stamp
      modifies v.co.Values`timestamp, v.co.Values`representative
      ensures Core(v') && v' == v.(mk := Accessed(v.st, v.mk, a, v.st.stamp[a]))
    {
      hide MemoryOk, TimesOk, AssignedOk, MissesOk, ShapeOk, Links, Represent;
      ResidesAt(v, a);
      ShapeFacts(v);
      if IsSystem(page.resides) {
        v' := v;
      } else {
        v' := Notify(usrChains[page.resides], page, a, v);
      }
    }

    lemma ResidesAt(v: View, a: int)
      requires Links(v) && a in v.ps && a in v.st.resides
      ensures v.ps[a].resides == v.st.resides[a] && v.st.resides[a] in v.co && v.ps[a] in v.ps.Values
    {
    }

    lemma TableFacts(v: View)
      requires Core(v)
      ensures memory.Valid() && memory.pages.Length == size && |memory.bitmap| == |v.st.resident| <= size
      ensures pageTable.mapping.Keys == v.st.resident
      ensures forall a :: a in v.st.resident ==> a in v.ps && pageTable.mapping[a] < size && memory.Load(pageTable.mapping[a]) == v.ps[a]
    {
      hide TimesOk, AssignedOk, MissesOk, ShapeOk, Links;
      CountBelow(memory.bitmap, size);
    }

    /** A free frame, if need be that of an evicted page. */
    method MakeRoom(ghost v: View) returns (frame: nat, ghost victim: Option<int>, ghost v': View)
      requires Settled(v) && size > 0
      modifies `swap, memory, memory.pages, pageTable, v.co.Values, v.ps.Values`next, v.ps.Values`prev, v.ps.Values`resides
      ensures Settled(v') && frame < size && frame !in memory.bitmap && v.mk.Keys == v.st.chains.Keys && AfterRoom(v, victim, v')
      ensures victim.Some? <==> |v.st.resident| == size
    {
      hide Core, MarksOk, Unbroken, Covered, State.Ok, Chosen, State.Evict, EvictedMarks;
      TableFacts(v);
      MarkKeys(v.st, v.mk);
      victim, v' := None, v;
      var f := memory.FreeFrame();
      if f == -1 {
        ghost var a;
        ghost var w := SomeElement(v.st.resident);
        a, v' := Evict(w, v);
        victim := Some(a);
        TableFacts(v');
        EvictOk(v.st, a);
        LessByOne(v.st.resident, a);
        f := memory.FreeFrame();
      }
      frame := f;
    }

    /** access() of a page that is not resident. */
    method AccessMiss(address: int, ghost v: View) returns (page: Page, ghost victim: Option<int>, ghost v': View)
      requires Settled(v) && address !in v.st.resident && size > 0 && v.st.Home(address) in v.st.chains
      modifies `swap, memory, memory.pages, pageTable, clock, v.ps.Values, v.co.Values
      ensures Settled(v') && v.mk.Keys == v.st.chains.Keys && (victim.Some? <==> |v.st.resident| == size)
      ensures AfterMiss(v.st, v.mk, victim, v'.st, address) && v'.ps == v.ps[address := page] && v'.co == v.co
      ensures AccessedMarks(v.st, v.mk, victim, address, v'.mk)
      ensures Unbroken(v.st, v.mk) ==> Unbroken(v'.st, v'.mk)
      ensures page.address == address && (if address in v.ps then page == v.ps[address] else fresh(page))
      ensures address in v'.st.resides && v'.st.resides[address] in v'.mk && Accessed(v'.st, v'.mk, address, v'.st.clock) == v'.mk
      ensures address in v'.st.stamp && v'.st.stamp[address] == v'.st.clock
    {
      hide Core, MarksOk, Unbroken, Covered, State.Ok, Evicted, State.Miss, State.Home, Represent, Accessed, RoomMarks, AccessedMarks;
      var frame;
      ghost var v1;
      frame, victim, v1 := MakeRoom(v);
      StillAbsent(v.st, v.mk, victim, v1.st, address);
      StillAtHome(v.st, v.mk, victim, v1.st, address);
      MissMarks(v1.st, v1.mk, address);
      MissFacts(v1.st, address);
      page, v' := BringIn(address, frame, v1);
      AccessMarked(v.st, v.mk, victim, address, v1.mk);
    }

    ghost predicate Valid()
      reads this, memory, memory.pages, pageTable, clock, view.co.Values, view.ps.Values
    {
      Settled(view)
    }

    /** The partition: page table and occupied frames are inverse to each other, and every occupied frame
        holds a page of exactly one chain, so that the sizes of the chains add up to their number. */
    lemma FramesPartition()
      requires Valid()
      ensures memory.bitmap == Image(pageTable.mapping, pageTable.mapping.Keys)
      ensures forall a, b :: a in pageTable.mapping && b in pageTable.mapping && a != b ==> pageTable.mapping[a] != pageTable.mapping[b]
      ensures forall a :: a in pageTable.mapping ==>
        && pageTable.mapping[a] < memory.pages.Length && a in view.ps
        && memory.pages[pageTable.mapping[a]] == view.ps[a] && view.ps[a].address == a && view.ps[a].frame == pageTable.mapping[a]
      ensures Sizes(view.st.chains, view.st.chains.Keys) == |memory.bitmap|
      ensures forall a :: a in pageTable.mapping <==> exists k :: k in view.st.chains && a in view.st.chains[k]
    {
      hide Links, TimesOk, AssignedOk, MissesOk, ShapeOk, MarksOk, Covered, State.Ok, Sizes;
      LinksAddressed(view);
      var m := pageTable.mapping;
      forall a | a in m
        ensures a in view.ps && view.ps[a].address == a && memory.pages[m[a]] == view.ps[a] && m[a] in memory.bitmap
      {
        assert memory.pages[..][m[a]] == view.ps[a];
      }
      ImageSize(m, m.Keys);
      assert Image(m, m.Keys) <= memory.bitmap;
      SameSize(Image(m, m.Keys), memory.bitmap);
      ChainsPartition(view.st);
    }

    lemma Bounded()
      requires Valid()
      ensures |view.st.resident| <= size && view.st.Ok() && MarksOk(view.st, view.mk) && view.mk.Keys == view.st.chains.Keys
    {
      hide Core, State.Ok, MarksOk;
      TableFacts(view);
      MarkKeys(view.st, view.mk);
    }

    /** access(address) for a resident page. */
    method AccessHit(address: int, frame: nat, ghost v: View) returns (page: Page, ghost v': View)
      requires Settled(v) && address in v.st.resident && frame == pageTable.Lookup(address)
      modifies clock, v.ps.Values`hits, v.ps.Values`timestamp, v.ps.Values`referenced
      ensures Core(v') && v' == v.(st := v.st.Hit(address)) && address in v.ps && page == v.ps[address]
    {
      hide Core, MarksOk, Covered, State.Ok;
      TableFacts(v);
      page := memory.Load(frame);
      InValues(v, address);
      v' := Ref(page, address, v);
    }

    lemma InValues(v: View, a: int)
      ensures a in v.ps ==> v.ps[a] in v.ps.Values
    {
    }

    method AccessPage(address: int, ghost v: View) returns (page: Page, ghost victim: Option<int>, ghost v': View)
      requires Settled(v) && size > 0 && (address in v.st.resident || v.st.Home(address) in v.st.chains)
      modifies `swap, memory, memory.pages, pageTable, clock, v.co.Values, v.ps.Values
      ensures Settled(v') && v.mk.Keys == v.st.chains.Keys && AfterAccess(v.st, v.mk, victim, v'.st, address, size)
      ensures AccessedMarks(v.st, v.mk, victim, address, v'.mk)
      ensures (Unbroken(v.st, v.mk) ==> Unbroken(v'.st, v'.mk)) && v'.co == v.co
      ensures v'.ps == v.ps[address := page] && (if address in v.ps then page == v.ps[address] else fresh(page))
    {
      hide Core, MarksOk, Covered, Unbroken, Chosen, State.Placed, State.Stamped, State.Assigned, State.Miss, AfterMiss;
      TableFacts(v);
      MarkKeys(v.st, v.mk);
      var frame := pageTable.Lookup(address);
      victim := None;
      if frame == -1 {
        page, victim, v' := AccessMiss(address, v);
      } else {
        HitMarks(v.st, v.mk, address);
        page, v' := AccessHit(address, frame, v);
      }
      InPages(v, address, page);
      v' := Touch(page, address, v');
    }

    /** access(address). The victim is named for the specification; the original returns nothing. It
        throws if the page is away and the chain it is assigned to has been released. */
    method Access(address: int) returns (ghost victim: Option<int>)
      requires Valid() && size > 0 && (address in view.st.resident || view.st.Home(address) in view.st.chains)
      modifies `view, `swap, memory, memory.pages, pageTable, clock, view.co.Values, view.ps.Values
      ensures Valid() && old(view).mk.Keys == old(view).st.chains.Keys
      ensures AfterAccess(old(view).st, old(view).mk, victim, view.st, address, size)
      ensures AccessedMarks(old(view).st, old(view).mk, victim, address, view.mk)
      ensures Unbroken(old(view).st, old(view).mk) ==> Unbroken(view.st, view.mk)
      ensures view.co == old(view).co && Grown(old(view).ps, view.ps, address)
      ensures fresh(view.ps.Values - old(view).ps.Values)
    {
      hide Settled, AfterAccess, AccessedMarks, Unbroken;
      var page;
      ghost var v;
      page, victim, v := AccessPage(address, view);
      InPages(view, address, page);
      view := v;
    }

    /** link(chain, address) for a live user chain and a resident page. */
    method LinkPage(chain: MemoryChain, page: Page, ghost a: int, ghost v: View) returns (ghost v': View)
      requires Settled(v) && a in v.st.resident && a in v.ps && page == v.ps[a]
      requires chain.id in usrChains && usrChains[chain.id] == chain
      modifies v.co.Values, v.ps.Values
      ensures Settled(v') && chain.id in v.st.chains && a in v.st.resides && v.st.resides[a] in v.st.chains
      ensures v' == v.(st := v.st.Move(chain.id, a), mk := v'.mk) && MarksMoved(v.st, v.mk, chain.id, a, v'.mk)
      ensures Unbroken(v.st, v.mk) ==> Unbroken(v'.st, v'.mk)
    {
      hide Core, MarksOk, Unbroken, Covered, State.Ok, State.Unlink, State.Link, State.Assign, Forget, Represent;
      ghost var k := chain.id;
      ShapeFacts(v);
      ResidentAt(v, a);
      MoveMarks(v.st, v.mk, k, a);
      var r := page.resides;
      ghost var v1 := Leave(page, chain.id, a, v);
      v1 := Assign(page, a, chain.id, v1);
      if r != chain.id {
        v1 := Attach(chain, page, a, k, v1);
      }
      v' := v1;
    }

    /** A page leaves the chain it resides in, unless that is chain k. */
    method Leave(page: Page, k: int, ghost a: int, ghost v: View) returns (ghost v': View)
      requires Core(v) && v.st.Ok() && a in v.st.resident && a in v.ps && page == v.ps[a] && !IsSystem(k)
      modifies v.co.Values, v.ps.Values`next, v.ps.Values`prev, v.ps.Values`resides
      ensures Core(v') && a in v.st.resides && v.st.resides[a] in v.st.chains && v.st.resides[a] in v.mk
      ensures v' == if v.st.resides[a] == k then v
        else v.(st := v.st.Unlink(a), mk := v.mk[v.st.resides[a] := Forget(v.mk[v.st.resides[a]], a)])
    {
      hide Core, State.Ok, State.Unlink, Forget;
      ShapeFacts(v);
      ResidentAt(v, a);
      v' := v;
      if page.resides != -1 {
        if IsSystem(page.resides) {
          v' := Detach(sysChains[page.resides], page, a, v);
        } else if k != page.resides {
          v' := Detach(usrChains[page.resides], page, a, v);
        }
      }
    }

    lemma ResidentAt(v: View, a: int)
      requires Core(v) && v.st.Ok() && a in v.st.resident && a in v.ps
      ensures a in v.st.resides && v.ps[a].resides == v.st.resides[a] && v.st.resides[a] in v.st.chains && v.st.resides[a] in v.mk
      ensures v.ps[a] in v.ps.Values && v.st.resides[a] in v.co && v.st.resides[a] != -1
    {
      hide MemoryOk, TimesOk, AssignedOk, MissesOk, ShapeOk;
    }

    /** link(chain, address) */
    method Link(chain: MemoryChain, address: int)
      requires Valid() && address in view.st.resident && chain.id in usrChains && usrChains[chain.id] == chain
      modifies `view, view.co.Values, view.ps.Values
      ensures Valid() && chain.id in old(view).st.chains && address in old(view).st.resides
      ensures old(view).st.resides[address] in old(view).st.chains
      ensures view == old(view).(st := old(view).st.Move(chain.id, address), mk := view.mk)
      ensures MarksMoved(old(view).st, old(view).mk, chain.id, address, view.mk)
      ensures Unbroken(old(view).st, old(view).mk) ==> Unbroken(view.st, view.mk)
    {
      hide Core, MarksOk, Covered, State.Ok, Unbroken;
      TableFacts(view);
      var page := memory.Load(pageTable.Lookup(address));
      ghost var v := LinkPage(chain, page, address, view);
      view := v;
    }

    /** anchor(chain, address): the page is linked and becomes the chain's anchor. */
    method Anchor(chain: MemoryChain, address: int)
      requires Valid() && address in view.st.resident && chain.id in usrChains && usrChains[chain.id] == chain
      modifies `view, view.co.Values, view.ps.Values
      ensures Valid() && chain.id in old(view).st.chains && address in old(view).st.resides
      ensures old(view).st.resides[address] in old(view).st.chains
      ensures view == old(view).(st := old(view).st.Move(chain.id, address), mk := view.mk)
      ensures MarksMoved(old(view).st, old(view).mk, chain.id, address, view.mk)
      ensures Unbroken(old(view).st, old(view).mk) ==> Unbroken(view.st, view.mk)
      ensures address in view.ps && chain.anchor == view.ps[address]
    {
      hide Settled;
      AnchorFacts(chain.id, address);
      var page := memory.Load(pageTable.Lookup(address));
      Link(chain, address);
      AnchorKept(chain, page);
    }

    lemma AnchorFacts(k: int, a: int)
      requires Valid() && a in view.st.resident && k in usrChains
      ensures usrChains[k] in view.co.Values && a in view.ps && a in pageTable.mapping && pageTable.mapping[a] < memory.pages.Length
      ensures memory.Load(pageTable.mapping[a]) == view.ps[a]
    {
      hide Core, MarksOk, State.Ok, Covered;
      TableFacts(view);
      ShapeFacts(view);
    }

    method AnchorKept(chain: MemoryChain, page: Page)
      requires Valid() && chain in view.co.Values
      modifies chain`anchor
      ensures Valid() && chain.anchor == page
    {
      hide MemoryOk, TimesOk, AssignedOk, MissesOk, Links, State.Ok, MarksOk;
      chain.anchor := page;
    }

    /** unlink(address): a resident page becomes hated, wherever it is, and a page that is not resident
        is left alone. */
    method Unlink(address: int)
      requires Valid()
      modifies `view, view.co.Values, view.ps.Values
      ensures Valid()
      ensures address !in old(view).st.resident ==> view == old(view)
      ensures address in old(view).st.resident ==>
        && address in old(view).st.resides && old(view).st.resides[address] in old(view).st.chains && HATED in old(view).st.chains
        && view == old(view).(st := old(view).st.Hate(address), mk := view.mk)
        && MarksMoved(old(view).st, old(view).mk, HATED, address, view.mk)
      ensures Unbroken(old(view).st, old(view).mk) ==> Unbroken(view.st, view.mk)
    {
      hide Core, MarksOk, Unbroken, Covered, State.Ok;
      TableFacts(view);
      var frame := pageTable.Lookup(address);
      if frame != -1 {
        var page := memory.Load(frame);
        ghost var v := HatePage(page, address, view);
        view := v;
      }
    }

    method HatePage(page: Page, ghost a: int, ghost v: View) returns (ghost v': View)
      requires Settled(v) && a in v.st.resident && a in v.ps && page == v.ps[a]
      modifies v.co.Values, v.ps.Values
      ensures Settled(v') && HATED in v.st.chains && a in v.st.resides && v.st.resides[a] in v.st.chains
      ensures v' == v.(st := v.st.Hate(a), mk := v'.mk) && MarksMoved(v.st, v.mk, HATED, a, v'.mk)
      ensures Unbroken(v.st, v.mk) ==> Unbroken(v'.st, v'.mk)
    {
      hide Core, MarksOk, Unbroken, Covered, State.Ok, State.Unlink, State.Link, State.Assign, Forget, Represent;
      ShapeFacts(v);
      ResidentAt(v, a);
      HateMarks(v.st, v.mk, a);
      var chain := if IsSystem(page.resides) then sysChains[page.resides] else usrChains[page.resides];
      v' := v;
      DistinctChains(v);
      if chain != sysChains[HATED] {
        v' := Detach(chain, page, a, v');
        v' := Assign(page, a, DEFAULT, v');
        v' := Attach(sysChains[HATED], page, a, HATED, v');
      }
    }

    lemma DistinctChains(v: View)
      requires Core(v)
      ensures forall k, l :: k in v.co && l in v.co && k != l ==> v.co[k] != v.co[l]
      ensures forall k :: k in v.co ==> v.co[k].id == k
    {
      hide MemoryOk, TimesOk, AssignedOk, MissesOk, ShapeOk;
      forall k | k in v.co
        ensures v.co[k].id == k
      {
        assert ChainOk(v.ps, v.co[k], k, v.st.chains[k]);
      }
    }

    /** createMemoryChain: a chain with the next number. Its policy and capacity never matter. */
    method CreateMemoryChain() returns (chain: MemoryChain)
      requires Valid()
      modifies `view, `chainId, `usrChains
      ensures Valid() && fresh(chain) && chain.id == old(chainId) && chainId == old(chainId) + 1
      ensures usrChains == old(usrChains)[chain.id := chain]
      ensures chain.id !in old(view).st.chains && chain.id >= 3
      ensures view == View(old(view).st.Create(chain.id), old(view).mk[chain.id := Mark(0, None)], old(view).ps, old(view).co[chain.id := chain])
      ensures Unbroken(old(view).st, old(view).mk) ==> Unbroken(view.st, view.mk)
    {
      hide Settled, Unbroken;
      ghost var v;
      chain, v := AddChain(view);
      view := v;
    }

    method AddChain(ghost v: View) returns (chain: MemoryChain, ghost v': View)
      requires Settled(v)
      modifies `chainId, `usrChains
      ensures Settled(v') && fresh(chain) && chain.id == old(chainId) && chainId == old(chainId) + 1
      ensures usrChains == old(usrChains)[chain.id := chain]
      ensures chain.id !in v.st.chains && chain.id >= 3
      ensures v' == View(v.st.Create(chain.id), v.mk[chain.id := Mark(0, None)], v.ps, v.co[chain.id := chain])
      ensures Unbroken(v.st, v.mk) ==> Unbroken(v'.st, v'.mk)
    {
      hide Core, MarksOk, Unbroken, Covered, State.Ok, Links;
      ghost var k := chainId;
      FreshNumber(v);
      HasLinks(v);
      CreateOk(v.st, k);
      MarksCreate(v.st, v.mk, k);
      chain := new MemoryChain(chainId);
      CreateLinks(v, k, chain);
      v' := View(v.st.Create(k), v.mk[k := Mark(0, None)], v.ps, v.co[k := chain]);
      Register(chain, v, v');
    }

    /** The new chain becomes known to the manager. */
    method Register(chain: MemoryChain, ghost v: View, ghost v': View)
      requires Core(v) && Links(v') && chain.id == chainId && chainId !in usrChains
      requires v' == View(v.st.Create(chainId), v'.mk, v.ps, v.co[chainId := chain])
      modifies `chainId, `usrChains
      ensures Core(v') && chainId == old(chainId) + 1 && usrChains == old(usrChains)[chain.id := chain]
    {
      hide Links, MemoryOk, TimesOk, AssignedOk, MissesOk, SwapOk;
      chainId, usrChains := chainId + 1, usrChains[chain.id := chain];
    }

    lemma HasLinks(v: View)
      requires Core(v)
      ensures Links(v)
    {
      hide Links;
    }

    lemma FreshNumber(v: View)
      requires Core(v)
      ensures chainId !in v.st.chains && chainId !in v.co && chainId !in usrChains && chainId >= 3
    {
      hide MemoryOk, TimesOk, AssignedOk, MissesOk;
    }

    static method UnchainOnly(ghost c: Change, chain: MemoryChain) returns (pages: seq<Page>)
      requires chain == c.chain && chain.Valid() && c.n == chain.nodes
      requires chain in c.v.co.Values && Elements(c.n) <= c.v.ps.Values
      modifies chain, Elements(c.n)`next, Elements(c.n)`prev, Elements(c.n)`resides
      ensures chain.Valid() && chain.nodes == [] && pages == c.n && Relinked(c)
      ensures chain.timestamp == old(chain.timestamp) && chain.representative == old(chain.representative)
      ensures forall i :: 0 <= i < |c.n| ==> c.n[i].resides == -1 && c.n[i].prev == null && c.n[i].next == null
    {
      hide MemoryChain.Valid;
      pages := chain.Unchain();
    }

    /** chain.unchain() */
    static method UnchainLinks(chain: MemoryChain, ghost k: int, ghost v: View, ghost v': View) returns (pages: seq<Page>)
      requires Links(v) && k in v.co && chain == v.co[k] && k in v.mk && k in v.st.chains
      requires v' == v.(st := v.st.Unchain(k))
      modifies chain, v.ps.Values`next, v.ps.Values`prev, v.ps.Values`resides
      ensures Links(v') && Holds(pages, v.st.chains[k], v.ps)
    {
      hide ResidesOk, ChainsOk, MarksMatch, State.Placed, Distinct, MemoryChain.Linked, MemoryChain.Valid, Relinked, OneMoved, Separate, AllHeld, MarkMatches, Addressed;
      ghost var n := chain.nodes;
      ChainFacts(v.ps, v.co, v.st, k);
      ChainMark(v, k);
      UnchainPlaced(v.st, k);
      ghost var c := Change(chain, n, null, 0, k, v, [], v'.st.resides, v.mk[k]);
      pages := UnchainOnly(c, chain);
      AllRelinked(c);
      assert v.mk[k := v.mk[k]] == v.mk;
    }

    method Unchain(chain: MemoryChain, ghost k: int, ghost v: View) returns (pages: seq<Page>, ghost v': View)
      requires Core(v) && k in v.co && chain == v.co[k] && k in v.mk && k in v.st.chains
      modifies v.co.Values, v.ps.Values`next, v.ps.Values`prev, v.ps.Values`resides
      ensures Core(v') && v' == v.(st := v.st.Unchain(k)) && Holds(pages, v.st.chains[k], v.ps)
    {
      hide Links, MemoryOk, TimesOk, AssignedOk, MissesOk, Holds;
      v' := v.(st := v.st.Unchain(k));
      pages := UnchainLinks(chain, k, v, v');
    }

    /** breakMemoryChain(chain): the members are hated, from head to tail. */
    method BreakPages(chain: MemoryChain, ghost v: View) returns (ghost v': View)
      requires Settled(v) && chain.id in usrChains && usrChains[chain.id] == chain
      modifies v.co.Values, v.ps.Values
      ensures Settled(v') && chain.id in v.st.chains && HATED in v.st.chains && v' == v.(st := v.st.Break(chain.id), mk := v'.mk)
      ensures OthersKept(v.mk, v'.mk)
    {
      hide OthersKept, Core, MarksOk, Covered, State.Ok, State.Break, State.Unchain, State.Link, State.Assign, Represent, Breaking, Holds;
      ghost var k := chain.id;
      ShapeFacts(v);
      BreakOk(v.st, k);
      BreakStart(v, k);
      ghost var s := v.st.chains[k];
      var pages;
      pages, v' := Unchain(chain, k, v);
      HoldsFacts(pages, s, v.ps);
      var i := 0;
      while i < |pages|
        invariant 0 <= i <= |pages| && Core(v') && Breaking(v, v', k, s[i..])
        modifies v.co.Values, v.ps.Values
      {
        assert s[i..][0] == s[i] && s[i..][1..] == s[i + 1..];
        v' := HateNext(pages[i], k, s[i..], v, v');
        i := i + 1;
      }
      BreakEnd(v, v', k, s[i..]);
    }

    /** One member of the broken chain is hated. */
    method HateNext(page: Page, ghost k: int, ghost rest: seq<int>, ghost v: View, ghost v1: View) returns (ghost v2: View)
      requires Core(v1) && Breaking(v, v1, k, rest) && rest != [] && rest[0] in v.ps && page == v.ps[rest[0]]
      modifies v.co.Values, v.ps.Values`next, v.ps.Values`prev, v.ps.Values`resides, page`assignedTo
      ensures Core(v2) && Breaking(v, v2, k, rest[1..])
    {
      hide Core, Breaking, State.Link, State.Assign, Represent;
      ShapeFacts(v1);
      BreakStep(v, v1, k, rest);
      v2 := Assign(page, rest[0], DEFAULT, v1);
      v2 := Attach(sysChains[HATED], page, rest[0], HATED, v2);
    }

    /** breakMemoryChain(chain) */
    method BreakMemoryChain(chain: MemoryChain)
      requires Valid() && chain.id in usrChains && usrChains[chain.id] == chain
      modifies `view, view.co.Values, view.ps.Values
      ensures Valid() && chain.id in old(view).st.chains && HATED in old(view).st.chains
      ensures view == old(view).(st := old(view).st.Break(chain.id), mk := view.mk) && OthersKept(old(view).mk, view.mk)
    {
      hide Settled, State.Break, OthersKept;
      ghost var v := BreakPages(chain, view);
      view := v;
    }

    /** releaseMemoryChain(chain). Pages that were evicted from the chain keep their assignment to it. */
    method ReleaseMemoryChain(chain: MemoryChain)
      requires Valid() && chain.id in usrChains && usrChains[chain.id] == chain
      modifies `view, `usrChains, view.co.Values, view.ps.Values
      ensures Valid() && usrChains == old(usrChains) - {chain.id}
      ensures chain.id in old(view).st.chains && HATED in old(view).st.chains
      ensures view == View(old(view).st.Release(chain.id), view.mk, old(view).ps, old(view).co - {chain.id})
      ensures view.mk.Keys == old(view).mk.Keys - {chain.id} && forall l :: l in view.mk && l != HATED ==> view.mk[l] == old(view).mk[l]
      ensures Unbroken(old(view).st, old(view).mk) ==> Unbroken(view.st, view.mk)
    {
      hide Settled, State.Release, Unbroken;
      ghost var v := ReleasePages(chain, view);
      view := v;
    }

    method ReleasePages(chain: MemoryChain, ghost v: View) returns (ghost v2: View)
      requires Settled(v) && chain.id in usrChains && usrChains[chain.id] == chain
      modifies `usrChains, v.co.Values, v.ps.Values
      ensures Settled(v2) && usrChains == old(usrChains) - {chain.id}
      ensures chain.id in v.st.chains && HATED in v.st.chains
      ensures v2 == View(v.st.Release(chain.id), v2.mk, v.ps, v.co - {chain.id})
      ensures v2.mk.Keys == v.mk.Keys - {chain.id} && forall l :: l in v2.mk && l != HATED ==> v2.mk[l] == v.mk[l]
      ensures Unbroken(v.st, v.mk) ==> Unbroken(v2.st, v2.mk)
    {
      hide Core, Covered, State.Ok, State.Break, OthersKept, Unbroken, State.Release, MarksOk;
      ShapeFacts(v);
      ghost var v1 := BreakPages(chain, v);
      v2 := RemoveChain(chain.id, v, v1);
      ReleaseKept(v.st, v.mk, v1.mk, chain.id);
    }

    method RemoveChain(k: int, ghost v: View, ghost v1: View) returns (ghost v2: View)
      requires Settled(v1) && k in usrChains && k in v.st.chains && HATED in v.st.chains && v1 == v.(st := v.st.Break(k), mk := v1.mk)
      requires v.st.Ok() && MarksOk(v.st, v.mk) && OthersKept(v.mk, v1.mk)
      modifies `usrChains
      ensures Settled(v2) && usrChains == old(usrChains) - {k}
      ensures v2 == View(v.st.Release(k), v1.mk - {k}, v.ps, v.co - {k}) && (Unbroken(v.st, v.mk) ==> Unbroken(v2.st, v2.mk))
    {
      hide Links, MemoryOk, TimesOk, AssignedOk, MissesOk, MarksOk, Unbroken, Covered, State.Ok, OthersKept, State.Break;
      v2 := View(v.st.Release(k), v1.mk - {k}, v.ps, v.co - {k});
      BreakOk(v.st, k);
      ReleaseOk(v.st, k);
      ReleaseMarks(v.st, v.mk, v1.mk, k);
      RemoveLinks(v1, k);
      ReleaseValues(v.co, k);
      usrChains := usrChains - {k};
    }
  }

  lemma ReleaseValues(co: map<int, MemoryChain>, k: int)
    ensures (co - {k}).Values <= co.Values
  {
  }

  lemma ReleaseKept(st: State, mk: Marks, mk1: Marks, k: int)
    requires st.Ok() && k in st.chains && !IsSystem(k) && MarksOk(st, mk) && MarksOk(st.Break(k), mk1) && OthersKept(mk, mk1)
    ensures (mk1 - {k}).Keys == mk.Keys - {k} && forall l :: l in mk1 - {k} && l != HATED ==> (mk1 - {k})[l] == mk[l]
  {
    BreakOk(st, k);
  }

  lemma ReleaseMarks(st: State, mk: Marks, mk1: Marks, k: int)
    requires st.Ok() && k in st.chains && !IsSystem(k) && MarksOk(st, mk) && MarksOk(st.Break(k), mk1) && OthersKept(mk, mk1)
    ensures MarksOk(st.Release(k), mk1 - {k}) && (Unbroken(st, mk) ==> Unbroken(st.Release(k), mk1 - {k}))
  {
    BreakMaps(st, k);
    hide Reverse, State.Break;
  }

  lemma RemoveLinks(v: View, k: int)
    requires Links(v) && k in v.st.chains && v.st.chains[k] == []
    ensures Links(View(v.st.(chains := v.st.chains - {k}), v.mk - {k}, v.ps, v.co - {k}))
  {
    hide ResidesOk, MemoryChain.Valid, Holds, MarkMatches, Distinct;
    var v' := View(v.st.(chains := v.st.chains - {k}), v.mk - {k}, v.ps, v.co - {k});
    forall l | l in v'.co
      ensures v'.co[l] in v'.co.Values && ChainOk(v'.ps, v'.co[l], l, v'.st.chains[l])
      ensures MarkMatches(v'.co[l].timestamp, v'.co[l].representative, v'.mk[l], v'.ps)
    {
      assert v.co[l] in v.co.Values && ChainOk(v.ps, v.co[l], l, v.st.chains[l]);
    }
  }

  /** The pages rest of chain k are still to be hated. */
  ghost predicate Breaking(v: View, v1: View, k: int, rest: seq<int>) {
    && k in v.st.chains && HATED in v.st.chains && HATED in v1.st.chains && HATED in v1.mk && HATED in v1.co
    && v1 == v.(st := v1.st, mk := v1.mk) && v1.st.HateAll(rest) == v.st.Break(k)
    && MarksOk(v1.st, v1.mk) && v1.st.Stamped() && Distinct(rest)
    && (forall j :: 0 <= j < |rest| ==> rest[j] in v1.st.stamp && rest[j] !in v1.st.resides)
    && (forall l :: l in v.mk && l != HATED ==> l in v1.mk && v1.mk[l] == v.mk[l])
  }

  lemma BreakStart(v: View, k: int)
    requires v.st.Ok() && MarksOk(v.st, v.mk) && v.co.Keys == v.st.chains.Keys && k in v.st.chains && !IsSystem(k)
    ensures k in v.mk && Breaking(v, v.(st := v.st.Unchain(k)), k, v.st.chains[k])
  {
    var u := v.st.Unchain(k);
    assert MarksOk(u, v.mk) by { MarksUnchain(v.st, v.mk, k); }
    forall j | 0 <= j < |v.st.chains[k]|
      ensures v.st.chains[k][j] in u.stamp && v.st.chains[k][j] !in u.resides
    {
      LinkedFacts(v.st, k, v.st.chains[k][j]);
    }
  }

  lemma BreakStep(v: View, v1: View, k: int, rest: seq<int>)
    requires Breaking(v, v1, k, rest) && rest != []
    ensures var a := rest[0]; var u := v1.st.Assign(a, DEFAULT);
      && HATED in v1.mk && HATED in v1.co && HATED in u.chains && a !in u.resides && a in u.stamp && v1.ps == v.ps && v1.co == v.co
      && Breaking(v, v1.(st := u.Link(HATED, a), mk := v1.mk[HATED := Represent(v1.mk[HATED], u.stamp[a], a)]), k, rest[1..])
  {
    hide MarksOk, Represent, State.Break;
    var a := rest[0];
    var u := v1.st.Assign(a, DEFAULT);
    MarksSame(v1.st, u, v1.mk);
    MarksLink(u, v1.mk, HATED, a);
    assert forall j :: 0 <= j < |rest| - 1 ==> rest[1..][j] == rest[j + 1] && rest[j + 1] != a;
  }

  lemma BreakEnd(v: View, v1: View, k: int, rest: seq<int>)
    requires Breaking(v, v1, k, rest) && rest == []
    ensures v1 == v.(st := v.st.Break(k), mk := v1.mk) && MarksOk(v1.st, v1.mk)
    ensures OthersKept(v.mk, v1.mk)
  {
  }

  ghost predicate OthersKept(mk: Marks, mk': Marks) {
    forall l :: l in mk && l != HATED ==> l in mk' && mk'[l] == mk[l]
  }

  lemma HoldsFacts(n: seq<Page>, s: seq<int>, ps: map<int, Page>)
    requires Holds(n, s, ps)
    ensures |n| == |s| && forall i :: 0 <= i < |s| ==> s[i] in ps && n[i] == ps[s[i]] && n[i] in ps.Values
  {
  }

  lemma CreateLinks(v: View, k: int, chain: MemoryChain)
    requires Links(v) && IsNew(chain, k) && k !in v.co
    ensures Links(View(v.st.Create(k), v.mk[k := Mark(0, None)], v.ps, v.co[k := chain]))
  {
    hide ResidesOk, MemoryChain.Valid, Holds, MarkMatches;
    NewChainValid(chain, k, v.ps);
    var v' := View(v.st.Create(k), v.mk[k := Mark(0, None)], v.ps, v.co[k := chain]);
    assert v'.st.Placed();
    forall l | l in v'.co
      ensures v'.co[l] in v'.co.Values && ChainOk(v'.ps, v'.co[l], l, v'.st.chains[l])
      ensures MarkMatches(v'.co[l].timestamp, v'.co[l].representative, v'.mk[l], v'.ps)
    {
      if l != k {
        assert v.co[l] in v.co.Values && ChainOk(v.ps, v.co[l], l, v.st.chains[l]);
      }
    }
  }

  lemma NewChainValid(chain: MemoryChain, k: int, ps: map<int, Page>)
    requires IsNew(chain, k)
    ensures ChainOk(ps, chain, k, []) && MarkMatches(chain.timestamp, chain.representative, Mark(0, None), ps)
  {
  }

  /** The marks after unlink(a), step by step. */
  lemma HateMarks(st: State, mk: Marks, a: int)
    requires MarksOk(st, mk) && st.Ok() && a in st.resident
    ensures HATED in st.chains && HATED in mk && a in st.resides && st.resides[a] in st.chains && st.resides[a] in mk
    ensures st.Hate(a).Ok() && st.Hate(a).resident == st.resident && a in st.stamp
    ensures var r := st.resides[a]; var mk' := if r == HATED then mk else MovedMarks(st, mk, r, HATED, a);
      && MarksOk(st.Hate(a), mk') && (Unbroken(st, mk) ==> Unbroken(st.Hate(a), mk'))
    ensures st.resides[a] != HATED ==>
      var u := st.Unlink(a).Assign(a, DEFAULT); a !in u.resides && a in u.stamp && u.stamp[a] == st.stamp[a] && u.chains.Keys == st.chains.Keys
  {
    HateOk(st, a);
    assert st.resides[a] in st.chains;
    var r := st.resides[a];
    if r != HATED {
      MarksUnlink(st, mk, a);
      var mk1 := mk[r := Forget(mk[r], a)];
      MarksSame(st.Unlink(a), st.Unlink(a).Assign(a, DEFAULT), mk1);
      MarksLink(st.Unlink(a).Assign(a, DEFAULT), mk1, HATED, a);
    }
  }

  /** The marks after link(chain k, a), step by step. */
  lemma MoveMarks(st: State, mk: Marks, k: int, a: int)
    requires MarksOk(st, mk) && st.Ok() && a in st.resident && k in st.chains && !IsSystem(k) && k != -1
    ensures a in st.resides && st.resides[a] in st.chains && k in mk && st.resides[a] in mk && st.Move(k, a).Ok()
    ensures st.Move(k, a).resident == st.resident && a in st.stamp && mk.Keys == st.chains.Keys
    ensures var r := st.resides[a]; var mk' := if r == k then mk else MovedMarks(st, mk, r, k, a);
      && MarksOk(st.Move(k, a), mk') && (Unbroken(st, mk) ==> Unbroken(st.Move(k, a), mk'))
    ensures st.resides[a] != k ==>
      var u := st.Unlink(a).Assign(a, k); a !in u.resides && a in u.stamp && u.stamp[a] == st.stamp[a] && u.chains.Keys == st.chains.Keys
  {
    MoveOk(st, k, a);
    assert st.resides[a] in st.chains;
    var r := st.resides[a];
    if r == k {
      MarksSame(st, st.Assign(a, k), mk);
    } else {
      MarksUnlink(st, mk, a);
      var mk1 := mk[r := Forget(mk[r], a)];
      MarksSame(st.Unlink(a), st.Unlink(a).Assign(a, k), mk1);
      MarksLink(st.Unlink(a).Assign(a, k), mk1, k, a);
    }
  }

  /** The marks after a has been linked to chain k. */
  ghost predicate MarksMoved(st: State, mk: Marks, k: int, a: int, mk': Marks) {
    && a in st.resides && st.resides[a] in mk && k in mk && a in st.stamp
    && mk' == if st.resides[a] == k then mk else MovedMarks(st, mk, st.resides[a], k, a)
  }

  function MovedMarks(st: State, mk: Marks, r: int, k: int, a: int): Marks
    requires r in mk && k in mk && a in st.stamp
  {
    var mk1 := mk[r := Forget(mk[r], a)];
    mk1[k := Represent(mk1[k], st.stamp[a], a)]
  }

  /** What access(a) does with a memory of the given size. */
  ghost predicate AfterAccess(st: State, mk: Marks, victim: Option<int>, st': State, a: int, size: nat)
    requires mk.Keys == st.chains.Keys
  {
    && st.Ok()
    && if a in st.resident then victim.None? && st' == st.Hit(a)
       else (victim.Some? <==> |st.resident| == size) && AfterMiss(st, mk, victim, st', a)
  }

  /** All pages but perhaps the one at address a are the same. */
  ghost predicate Grown(ps: map<int, Page>, ps': map<int, Page>, a: int) {
    a in ps' && ps' == ps[a := ps'[a]] && (a in ps ==> ps'[a] == ps[a])
  }

  lemma HitMarks(st: State, mk: Marks, a: int)
    requires MarksOk(st, mk) && st.Ok() && a in st.resident
    ensures a in st.resides && st.resides[a] in mk && st.Hit(a).Ok() && a in st.Hit(a).stamp && st.Hit(a).stamp[a] == st.clock + 1
    ensures MarksOk(st.Hit(a), Accessed(st, mk, a, st.clock + 1)) && Accessed(st.Hit(a), mk, a, st.clock + 1) == Accessed(st, mk, a, st.clock + 1)
    ensures Unbroken(st, mk) ==> Unbroken(st.Hit(a), Accessed(st, mk, a, st.clock + 1))
  {
    HitOk(st, a);
    MarksHit(st, mk, a);
  }

  ghost predicate AfterRoom(v: View, victim: Option<int>, v': View)
    requires v.mk.Keys == v.st.chains.Keys && v.st.Ok()
  {
    && (Unbroken(v.st, v.mk) ==> Unbroken(v'.st, v'.mk)) && v'.ps == v.ps && v'.co == v.co
    && Evicted(v.st, v.mk, victim, v'.st) && RoomMarks(v.st, v.mk, victim, v'.mk)
  }

  /** The victim, if there is one, is the choice of the search, and it is gone. */
  ghost predicate Evicted(st: State, mk: Marks, victim: Option<int>, st': State)
    requires mk.Keys == st.chains.Keys && st.Ok()
  {
    match victim
    case None => st' == st
    case Some(u) => u in st.resident && Chosen(st, mk, u) && st' == st.Evict(u)
  }

  /** What a page fault does: a page is evicted if need be, and the new one is admitted. */
  ghost predicate AfterMiss(st: State, mk: Marks, victim: Option<int>, st': State, a: int)
    requires mk.Keys == st.chains.Keys && st.Ok()
  {
    exists s :: Evicted(st, mk, victim, s) && s.Home(a) in s.chains && st' == s.Miss(a)
  }

  lemma StillAbsent(st: State, mk: Marks, victim: Option<int>, st': State, a: int)
    requires mk.Keys == st.chains.Keys && st.Ok() && a !in st.resident && Evicted(st, mk, victim, st')
    ensures a !in st'.resident
  {
    hide Chosen;
  }

  lemma EvictMarked(st: State, mk: Marks, mk1: Marks, a: int)
    requires a in st.resides && HATED in st.chains && SPILLOVER in st.chains && st.resides[a] in mk1
    requires AskedMarks(st, mk, mk1, Contestants(st))
    ensures EvictedMarks(st, mk, a, mk1[st.resides[a] := Forget(mk1[st.resides[a]], a)])
  {
    hide AskedMarks, Contestants, Forget;
  }

  lemma AccessMarked(st: State, mk: Marks, victim: Option<int>, a: int, mk1: Marks)
    requires RoomMarks(st, mk, victim, mk1) && a !in st.resident && st.Home(a) in mk1
    ensures AccessedMarks(st, mk, victim, a, mk1[st.Home(a) := Represent(mk1[st.Home(a)], st.clock + 2, a)])
  {
    hide RoomMarks, Represent;
  }

  lemma NoneAsked(st: State, mk: Marks)
    ensures AskedMarks(st, mk, mk, {}) && AskedMarks(st, mk, mk, {DEFAULT})
  {
  }

  lemma StillAtHome(st: State, mk: Marks, victim: Option<int>, st': State, a: int)
    requires mk.Keys == st.chains.Keys && st.Ok() && st.Home(a) in st.chains && Evicted(st, mk, victim, st')
    ensures st'.Home(a) == st.Home(a) && st'.Home(a) in st'.chains && st'.clock == st.clock
  {
    hide Chosen;
  }

  lemma MissFacts(st: State, a: int)
    requires st.Home(a) in st.chains
    ensures var m := st.Miss(a); a in m.resides && m.resides[a] == st.Home(a) && a in m.stamp && m.stamp[a] == m.clock == st.clock + 2
  {
  }

  lemma SomeElement(s: set<int>) returns (x: int)
    requires |s| > 0
    ensures x in s
  {
    x := 0;
    if y :| y in s {
      x := y;
    } else {
      NoElement(s);
      assert false;
    }
  }

  lemma NoElement(s: set<int>)
    requires forall y :: y !in s
    ensures |s| == 0
  {
    var none: set<int> := {};
    assert forall y :: y in s <==> y in none;
    assert s == none;
  }

  lemma MarkKeys(st: State, mk: Marks)
    requires MarksOk(st, mk)
    ensures mk.Keys == st.chains.Keys
  {
  }

  lemma LessByOne(s: set<int>, a: int)
    requires a in s
    ensures |s - {a}| == |s| - 1
  {
  }

  /** The marks after a page fault, Represent being applied at the link. */
  lemma MissMarks(st: State, mk: Marks, a: int)
    requires MarksOk(st, mk) && st.Ok() && a !in st.resident && st.Home(a) in st.chains
    ensures st.Home(a) in mk && st.Home(a) != -1
    ensures var h := st.Home(a); var mk' := mk[h := Represent(mk[h], st.clock + 2, a)];
      && MarksOk(st.Miss(a), mk') && (Unbroken(st, mk) ==> Unbroken(st.Miss(a), mk'))
      && Accessed(st.Miss(a), mk', a, st.clock + 2) == mk'
    ensures st.Admit(a).Home(a) == st.Home(a) && st.Admit(a).chains == st.chains && st.Admit(a).resides == st.resides
    ensures a in st.Admit(a).stamp && st.Admit(a).stamp[a] == st.clock + 2 && a !in st.resides && a in st.Miss(a).resident
  {
    MarksAdmit(st, mk, a);
    hide MarksOk, Unbroken;
    MarksLink(st.Admit(a), mk, st.Home(a), a);
  }

  lemma SameResident(st: State, a: int)
    requires a in st.Meet(a).misses
    ensures st.Meet(a).Loaded(a).Hit(a).resident == st.resident
  {
  }

  /** The page at the best address, and the chain it resides in. */
  ghost predicate PageOf(page: Page?, chain: MemoryChain?, best: Option<int>, v: View) {
    match best
    case None => page == null
    case Some(a) =>
      && page != null && page.address == a && a in v.ps && page == v.ps[a]
      && chain != null && a in v.st.resides && v.st.resides[a] in v.co && v.co[v.st.resides[a]] == chain
  }

  lemma AskMeans(st: State, m: Mark, s: seq<int>, t: int, m': Mark)
    requires m.rep.Some? ==> m' == m && t == m.stamp
    requires m.rep.None? ==> t == m'.stamp == Paging.Latest(st.stamp, s) && m'.rep.Some?
    requires m.rep.None? ==> m'.rep.value in s && m'.rep.value in st.stamp && st.stamp[m'.rep.value] == t
    ensures Refreshed(st, m, m', s) && t == Effective(st, m, s)
  {
  }

  /** Pages of a chain that have been used have positive stamps, and are found by their addresses. */
  lemma ChainStamps(n: seq<Page>, s: seq<int>, ps: map<int, Page>, st: State)
    requires Holds(n, s, ps) && TimesOk(ps, st.stamp) && st.Stamped() && Addressed(ps)
    ensures forall p :: p in n ==> p.address in s && p.address in st.stamp && st.stamp[p.address] == p.timestamp
    ensures forall p :: p in n ==> p.address in ps && ps[p.address] == p
    ensures s != [] ==> Paging.Latest(st.stamp, s) > 0
  {
    forall p | p in n
      ensures p.address in s && p.address in ps && ps[p.address] == p && p.address in st.stamp && st.stamp[p.address] == p.timestamp > 0
    {
      var i :| 0 <= i < |n| && n[i] == p;
      assert n[i] == ps[s[i]] && s[i] in ps && p.address == s[i] && s[i] in s;
      assert s[i] in st.stamp;
    }
    if s != [] {
      assert n[0] in n && StampAt(st.stamp, s[0]) <= Paging.Latest(st.stamp, s);
    }
  }

  /** The pages of a chain have the stamps of their addresses. */
  lemma StampsAgree(n: seq<Page>, s: seq<int>, ps: map<int, Page>, stamp: map<int, nat>)
    requires Holds(n, s, ps) && TimesOk(ps, stamp)
    ensures MemoryChains.Latest(n) == Paging.Latest(stamp, s)
    ensures forall i :: 0 <= i < |s| ==> n[i].timestamp == StampAt(stamp, s[i])
  {
    assert forall i :: 0 <= i < |s| ==> n[i].timestamp == StampAt(stamp, s[i]);
    var m, l := MemoryChains.Latest(n), Paging.Latest(stamp, s);
    if s != [] {
      var i :| 0 <= i < |s| && StampAt(stamp, s[i]) == l;
      assert n[i] in n && n[i].timestamp <= m;
    }
    if m > 0 {
      var p :| p in n && p.timestamp == m;
      var j :| 0 <= j < |n| && n[j] == p;
      assert StampAt(stamp, s[j]) <= l;
    }
  }

  lemma ChainMark(v: View, k: int)
    requires MarksMatch(v.ps, v.co, v.mk) && k in v.co
    ensures k in v.mk && MarkMatches(v.co[k].timestamp, v.co[k].representative, v.mk[k], v.ps)
  {
  }

  lemma LoadedLinks(v: View, a: int)
    requires a in v.st.misses
    ensures Links(v) ==> Links(v.(st := v.st.Loaded(a)))
  {
  }

  /** The page at address a has been fetched. */
  ghost predicate Met(v: View, v': View, a: int, page: Page) {
    && v' == v.(st := v.st.Meet(a), ps := v'.ps) && v'.ps == v.ps[a := page] && page.address == a
    && (a in v.ps ==> page == v.ps[a])
  }

  lemma MeetData(v: View, a: int, page: Page)
    requires TimesOk(v.ps, v.st.stamp) && AssignedOk(v.ps, v.st.assignedTo) && MissesOk(v.ps, v.st.misses)
    requires a !in v.ps && page.timestamp == 0 && page.assignedTo == -1 && page.misses == 0
    ensures var ps, st := v.ps[a := page], v.st.Meet(a); TimesOk(ps, st.stamp) && AssignedOk(ps, st.assignedTo) && MissesOk(ps, st.misses)
  {
    var ps := v.ps[a := page];
    assert forall b :: b in ps ==> ps[b] in ps.Values;
    assert forall b :: b in v.ps ==> v.ps[b] in v.ps.Values;
  }

  lemma MeetLinks(v: View, a: int, page: Page)
    requires Links(v) && a !in v.ps && page.address == a && page.resides == -1 && page.prev == null && page.next == null
    ensures Links(v.(st := v.st.Meet(a), ps := v.ps[a := page]))
  {
    hide Distinct, MemoryChain.Valid;
    var v' := v.(st := v.st.Meet(a), ps := v.ps[a := page]);
    assert forall b :: b in v.ps ==> b in v'.ps && v'.ps[b] == v.ps[b] && v'.ps[b] in v'.ps.Values;
    assert ResidesOk(v'.ps, v'.st.resides);
    forall k | k in v.co
      ensures v.co[k] in v.co.Values && ChainOk(v'.ps, v.co[k], k, v.st.chains[k])
      ensures MarkMatches(v.co[k].timestamp, v.co[k].representative, v.mk[k], v'.ps)
    {
      assert ChainOk(v.ps, v.co[k], k, v.st.chains[k]);
      assert MarkMatches(v.co[k].timestamp, v.co[k].representative, v.mk[k], v.ps);
    }
  }

  lemma MapsKeys(frames: seq<Page?>, mapping: map<int, nat>, resident: set<int>, ps: map<int, Page>)
    requires Maps(frames, mapping, resident, ps)
    ensures mapping.Keys == resident && resident <= ps.Keys
    ensures forall a :: a in mapping ==> mapping[a] < |frames| && frames[mapping[a]] == ps[a]
  {
  }

  lemma LinksAddressed(v: View)
    requires Links(v)
    ensures Addressed(v.ps)
  {
  }

  lemma OccupyLinks(v: View, a: int)
    ensures Links(v) ==> Links(v.(st := v.st.Occupy(a))) && Links(v.(st := v.st.Vacate(a)))
  {
  }

  lemma AddressedAt(ps: map<int, Page>, a: int)
    requires Addressed(ps) && a in ps
    ensures ps[a].address == a
  {
  }

  lemma HitLinks(v: View, a: int)
    ensures Links(v) ==> Links(v.(st := v.st.Hit(a)))
  {
  }

  lemma AssignLinks(v: View, a: int, k: int)
    ensures Links(v) ==> Links(v.(st := v.st.Assign(a, k)))
  {
  }

  lemma DataFacts(v: View, a: int)
    requires TimesOk(v.ps, v.st.stamp) && AssignedOk(v.ps, v.st.assignedTo) && MissesOk(v.ps, v.st.misses) && a in v.ps
    ensures a in v.st.stamp && a in v.st.assignedTo && a in v.st.misses && v.ps[a] in v.ps.Values
    ensures v.ps[a].timestamp == v.st.stamp[a] && v.ps[a].assignedTo == v.st.assignedTo[a] && v.ps[a].misses == v.st.misses[a]
  {
  }

  lemma LinkFacts(st: State, k: int, a: int)
    requires k in st.chains
    ensures var u := st.Link(k, a);
      && u.stamp == st.stamp && u.assignedTo == st.assignedTo && u.misses == st.misses && u.resident == st.resident
      && u.clock == st.clock && u.resides == st.resides[a := k]
      && u.chains == st.chains[k := u.chains[k]] && u.chains.Keys == st.chains.Keys && u.chains[k] == [a] + st.chains[k]
  {
  }

  lemma MarkRepresents(v: View, k: int, a: int)
    requires MarksMatch(v.ps, v.co, v.mk) && k in v.co && a in v.ps
    ensures k in v.mk
    ensures var c, p := v.co[k], v.ps[a];
      if p.timestamp > c.timestamp then MarkMatches(p.timestamp, p, Represent(v.mk[k], p.timestamp, a), v.ps)
      else MarkMatches(c.timestamp, c.representative, Represent(v.mk[k], p.timestamp, a), v.ps)
  {
    assert MarkMatches(v.co[k].timestamp, v.co[k].representative, v.mk[k], v.ps);
  }

  lemma UnlinkFacts(st: State, a: int)
    requires a in st.resides && st.resides[a] in st.chains
    ensures var u := st.Unlink(a);
      && u.stamp == st.stamp && u.assignedTo == st.assignedTo && u.misses == st.misses && u.resident == st.resident && u.clock == st.clock && u.resides == st.resides - {a}
      && u.chains == st.chains[st.resides[a] := u.chains[st.resides[a]]] && u.chains.Keys == st.chains.Keys
      && u.chains[st.resides[a]] == Minus(st.chains[st.resides[a]], a)
  {
  }

  /** The position of a resident page in its chain. */
  ghost function Position(st: State, a: int): (i: nat)
    requires st.Placed() && a in st.resides
    ensures st.resides[a] in st.chains && i < |st.chains[st.resides[a]]| && st.chains[st.resides[a]][i] == a
  {
    assert a in st.chains[st.resides[a]];
    var i :| 0 <= i < |st.chains[st.resides[a]]| && st.chains[st.resides[a]][i] == a;
    i
  }

  lemma NotHeld(n: seq<Page>, s: seq<int>, pages: map<int, Page>, b: int)
    requires Holds(n, s, pages) && Addressed(pages) && b in pages && b !in s
    ensures pages[b] !in Elements(n)
  {
    assert forall i :: 0 <= i < |s| ==> n[i].address == s[i];
  }
}
