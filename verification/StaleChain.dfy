/** Breaking a chain and using it again can make evict() spare a page that is older than its victim. */
module StaleChain {
  import opened MemoryChains
  import opened MemoryManager
  import opened Options
  import opened Paging
  import opened Representatives
  import opened Sequences
  import opened VictimChoice

  /** Chains, stamps and resident pages, all that decides about the victim. */
  ghost predicate Looks(st: State, chains: map<int, seq<int>>, stamp: map<int, nat>) {
    st.Ok() && st.chains == chains && st.stamp == stamp && st.resident == stamp.Keys
  }

  lemma Loads(st: State, mk: Marks, victim: Option<int>, st': State, a: int, size: nat, s: seq<int>, clock: nat)
    requires mk.Keys == st.chains.Keys && AfterAccess(st, mk, victim, st', a, size) && a !in st.stamp && |st.resident| < size
    requires Looks(st, map[HATED := [], SPILLOVER := [], DEFAULT := s], st.stamp) && st.clock == clock
    ensures Looks(st', map[HATED := [], SPILLOVER := [], DEFAULT := [a] + s], st.stamp[a := clock + 2]) && st'.clock == clock + 2
  {
    hide State.Ok, State.Miss, State.Home, Chosen;
    KnownPages(st);
    var t :| Evicted(st, mk, victim, t) && t.Home(a) in t.chains && st' == t.Miss(a);
    NoAssignment(st, a);
    MissOk(st, a);
    MissShape(st, a);
  }

  lemma KnownPages(st: State)
    requires st.Ok()
    ensures st.resident <= st.stamp.Keys && DEFAULT in st.chains
  {
  }

  lemma NoAssignment(st: State, a: int)
    requires st.Ok() && a !in st.stamp
    ensures st.Home(a) == DEFAULT
  {
  }

  lemma Moves(st: State, mk: Marks, mk': Marks, r: int, k: int, a: int, cs: map<int, seq<int>>, sm: map<int, nat>)
    requires Looks(st, cs, sm) && r in cs && a in cs[r] && k in cs && k != r && k >= 3
    ensures k in st.chains && a in st.resides && st.resides[a] == r && r in st.chains && a in st.resident && a in sm
    ensures Looks(st.Move(k, a), cs[r := Minus(cs[r], a)][k := [a] + cs[k]], sm)
    ensures MarksMoved(st, mk, k, a, mk') ==> k in mk && k in mk' && mk'[k] == Represent(mk[k], sm[a], a)
    ensures MarksMoved(st, mk, k, a, mk') ==> forall l :: l in mk && l != r && l != k ==> l in mk' && mk'[l] == mk[l]
  {
    LinkedFacts(st, r, a);
    MoveOk(st, k, a);
  }

  lemma Breaks(st: State, k: int, cs: map<int, seq<int>>, sm: map<int, nat>)
    requires Looks(st, cs, sm) && k in cs && k >= 3 && HATED in cs
    ensures k in st.chains && HATED in st.chains && Looks(st.Break(k), cs[k := []][HATED := Reverse(cs[k]) + cs[HATED]], sm)
  {
    BreakOk(st, k);
    BreakMaps(st, k);
  }

  lemma Added(co: map<int, MemoryChain>, k: int, c: MemoryChain)
    ensures co[k := c].Values <= co.Values + {c}
  {
  }

  lemma Creates(st: State, k: int, cs: map<int, seq<int>>, sm: map<int, nat>)
    requires Looks(st, cs, sm) && k !in cs && k >= 3
    ensures Looks(st.Create(k), cs[k := []], sm)
  {
    CreateOk(st, k);
  }

  /** Page 3 was used before page 2, but after page 1, which is alone in its chain. */
  const STAMPS: map<int, nat> := map[1 := 2, 3 := 4, 2 := 6]

  function ChainsOf(h: seq<int>, s: seq<int>): map<int, seq<int>> {
    map[HATED := h, SPILLOVER := [], DEFAULT := s]
  }

  method NewManager() returns (m: HierarchicalMemoryManager)
    ensures fresh(m) && m.Valid() && m.size == 3 && m.chainId == 3
    ensures Looks(m.view.st, ChainsOf([], Taken(0)), UpTo(0)) && m.view.st.clock == 0
    ensures fresh(m.memory) && fresh(m.memory.pages) && fresh(m.pageTable) && fresh(m.clock)
    ensures fresh(m.view.co.Values) && m.view.ps == map[]
  {
    hide HierarchicalMemoryManager.Valid, Looks, Unbroken, Empty, ChainsOf, UpTo, Taken;
    var clock := new LogicalClock(0);
    m := new HierarchicalMemoryManager(3, clock);
    Starts();
  }

  /** The three pages in the order of their first use, the last of them first, and their stamps. */
  function PageAt(n: nat): int {
    if n == 0 then 1 else if n == 1 then 3 else 2
  }

  function Taken(n: nat): seq<int> {
    if n == 0 then [] else if n == 1 then [1] else if n == 2 then [3, 1] else [2, 3, 1]
  }

  function UpTo(n: nat): map<int, nat> {
    if n == 0 then map[] else if n == 1 then map[1 := 2] else if n == 2 then map[1 := 2, 3 := 4] else STAMPS
  }

  lemma Next(n: nat)
    requires n < 3
    ensures Taken(n + 1) == [PageAt(n)] + Taken(n) && UpTo(n + 1) == UpTo(n)[PageAt(n) := 2 * n + 2]
    ensures PageAt(n) !in UpTo(n) && |UpTo(n)| == n
  {
  }

  /** A manager of three frames after access 1, 3 and 2. */
  method ThreePages() returns (m: HierarchicalMemoryManager)
    ensures fresh(m) && m.Valid() && m.size == 3 && Looks(m.view.st, ChainsOf([], [2, 3, 1]), STAMPS) && m.chainId == 3
    ensures fresh(m.view.co.Values) && fresh(m.view.ps.Values)
  {
    hide HierarchicalMemoryManager.Valid, Looks, ChainsOf;
    m := NewManager();
    for n := 0 to 3
      invariant m.Valid() && Looks(m.view.st, ChainsOf([], Taken(n)), UpTo(n)) && m.view.st.clock == 2 * n
      invariant fresh(m.view.co.Values) && fresh(m.view.ps.Values) && m.chainId == 3
    {
      Read(m, n);
    }
    assert Taken(3) == [2, 3, 1] && UpTo(3) == STAMPS;
  }

  /** The n-th page is read into a free frame. */
  method Read(m: HierarchicalMemoryManager, n: nat)
    requires m.Valid() && m.size == 3 && n < 3 && Looks(m.view.st, ChainsOf([], Taken(n)), UpTo(n)) && m.view.st.clock == 2 * n
    modifies m`view, m`swap, m.memory, m.memory.pages, m.pageTable, m.clock, m.view.co.Values, m.view.ps.Values
    ensures m.Valid() && Looks(m.view.st, ChainsOf([], Taken(n + 1)), UpTo(n + 1)) && m.view.st.clock == 2 * (n + 1)
    ensures m.view.co == old(m.view.co) && fresh(m.view.ps.Values - old(m.view.ps.Values))
  {
    hide HierarchicalMemoryManager.Valid, AfterAccess, AccessedMarks, MarksOk, State.Ok, Unbroken, Grown, UpTo, Taken, PageAt, Looks, ChainsOf;
    ghost var st, mk := m.view.st, m.view.mk;
    m.Bounded();
    NewPage(st, n);
    var victim := m.Access(PageAt(n));
    LoadsNext(st, mk, victim, m.view.st, n);
  }

  lemma NewPage(st: State, n: nat)
    requires n < 3 && Looks(st, ChainsOf([], Taken(n)), UpTo(n))
    ensures st.Home(PageAt(n)) in st.chains
  {
    hide State.Ok;
    Next(n);
    KnownPages(st);
    NoAssignment(st, PageAt(n));
  }

  lemma LoadsNext(st: State, mk: Marks, victim: Option<int>, st': State, n: nat)
    requires mk.Keys == st.chains.Keys && n < 3 && AfterAccess(st, mk, victim, st', PageAt(n), 3)
    requires Looks(st, ChainsOf([], Taken(n)), UpTo(n)) && st.clock == 2 * n
    ensures Looks(st', ChainsOf([], Taken(n + 1)), UpTo(n + 1)) && st'.clock == 2 * (n + 1)
  {
    hide AfterAccess, MarksOk, State.Ok, UpTo, Taken, PageAt, Looks, ChainsOf;
    Next(n);
    LooksSize(st, Taken(n), UpTo(n));
    LooksMap(Taken(n + 1));
    Loads(st, mk, victim, st', PageAt(n), 3, Taken(n), 2 * n);
  }

  lemma LooksMap(s: seq<int>)
    ensures ChainsOf([], s) == map[HATED := [], SPILLOVER := [], DEFAULT := s]
  {
  }

  lemma LooksSize(st: State, s: seq<int>, sm: map<int, nat>)
    requires Looks(st, ChainsOf([], s), sm)
    ensures st.stamp == sm && |st.resident| == |sm| && Looks(st, map[HATED := [], SPILLOVER := [], DEFAULT := s], st.stamp)
  {
  }

  lemma Starts()
    ensures Looks(Empty(0), ChainsOf([], Taken(0)), UpTo(0)) && Empty(0).clock == 0
  {
  }

  lemma SparedPages(st: State, mk: Marks)
    requires Looks(st, ChainsOf([], [3])[3 := [1]][4 := [2]], STAMPS) && mk.Keys == st.chains.Keys
    requires mk[3] == Mark(6, Some(2)) && mk[4] == Mark(6, Some(2))
    ensures st.resides.Keys == {1, 2, 3} && st.resides[1] == 3 && st.resides[2] == 4 && st.resides[3] == DEFAULT
    ensures Priority(st, 1) == 2 && Priority(st, 2) == 6 && Priority(st, 3) == 4
    ensures Cached(st, mk, 1) == 6 && Cached(st, mk, 2) == 6 && Cached(st, mk, 3) == 4
    ensures st.chains[HATED] == [] && st.chains[SPILLOVER] == [] && st.chains[DEFAULT] == [3]
  {
    LinkedFacts(st, DEFAULT, 3);
    LinkedFacts(st, 3, 1);
    LinkedFacts(st, 4, 2);
  }

  /** With the stale mark of the broken chain page 3 is the only choice, although page 1, whose chain
      has not been used since, is older. */
  lemma Spared(st: State, mk: Marks)
    requires Looks(st, ChainsOf([], [3])[3 := [1]][4 := [2]], STAMPS) && mk.Keys == st.chains.Keys
    requires mk[3] == Mark(6, Some(2)) && mk[4] == Mark(6, Some(2))
    ensures Chosen(st, mk, 3) && !Optimal(st, 3) && Misled(st, mk) && forall v :: Chosen(st, mk, v) ==> v == 3
  {
    hide State.Ok, Cached, Priority, ChainsOf;
    assert st.Ok();
    SparedPages(st, mk);
    OptimalIff(st, mk);
  }

  /** The chains after each step, each given as the step before says. */
  lemma Shapes()
    ensures var c1 := ChainsOf([], [2, 3, 1])[3 := []]; c1[DEFAULT := Minus(c1[DEFAULT], 2)][3 := [2] + c1[3]] == ChainsOf([], [3, 1])[3 := [2]]
    ensures var c2 := ChainsOf([], [3, 1])[3 := [2]]; c2[3 := []][HATED := Reverse(c2[3]) + c2[HATED]] == ChainsOf([2], [3, 1])[3 := []]
    ensures var c3 := ChainsOf([2], [3, 1])[3 := []]; c3[DEFAULT := Minus(c3[DEFAULT], 1)][3 := [1] + c3[3]] == ChainsOf([2], [3])[3 := [1]]
    ensures var c4 := ChainsOf([2], [3])[3 := [1]][4 := []];
      c4[HATED := Minus(c4[HATED], 2)][4 := [2] + c4[4]] == ChainsOf([], [3])[3 := [1]][4 := [2]]
  {
    hide Minus, Reverse;
    Lists();
    var none: seq<int> := [];
    assert [2] + none == [2] && [1] + none == [1];
  }

  lemma Lists()
    ensures Minus([2, 3, 1], 2) == [3, 1] && Minus([3, 1], 1) == [3] && Minus([2], 2) == [] && Reverse([2]) == [2]
  {
    assert [2, 3, 1][1..] == [3, 1] && [3, 1][1..] == [1] && [1][1..] == [] && [2][1..] == [];
    assert Minus([1], 1) == [];
    assert Minus([3, 1], 1) == [3] + Minus([1], 1) == [3];
    assert Minus([2, 3, 1], 2) == [3, 1];
    assert Minus([2], 2) == [];
    assert Reverse([2]) == Reverse([]) + [2];
  }

  /** A page is linked to a user chain. */
  method LinkTo(m: HierarchicalMemoryManager, chain: MemoryChain, a: int, ghost r: int, ghost cs: map<int, seq<int>>)
    requires m.Valid() && Looks(m.view.st, cs, STAMPS) && r in cs && a in cs[r] && chain.id in cs && chain.id != r && chain.id >= 3
    requires chain.id in m.usrChains && m.usrChains[chain.id] == chain
    modifies m`view, m.view.co.Values, m.view.ps.Values
    ensures m.Valid() && m.view.co == old(m.view.co) && m.view.ps == old(m.view.ps) && a in STAMPS
    ensures Looks(m.view.st, cs[r := Minus(cs[r], a)][chain.id := [a] + cs[chain.id]], STAMPS)
    ensures chain.id in old(m.view.mk) && chain.id in m.view.mk
    ensures m.view.mk[chain.id] == Represent(old(m.view.mk)[chain.id], STAMPS[a], a)
    ensures forall l :: l in old(m.view.mk) && l != r && l != chain.id ==> l in m.view.mk && m.view.mk[l] == old(m.view.mk)[l]
  {
    hide HierarchicalMemoryManager.Valid, Looks, MarksOk, Unbroken, State.Ok, State.Move, MarksMoved, Represent;
    ghost var st, mk := m.view.st, m.view.mk;
    Moves(st, mk, mk, r, chain.id, a, cs, STAMPS);
    m.Link(chain, a);
    Moves(st, mk, m.view.mk, r, chain.id, a, cs, STAMPS);
  }

  /** Page 2 is linked to a chain and the chain is broken. */
  method UseAndBreak() returns (m: HierarchicalMemoryManager, c: MemoryChain)
    ensures fresh(m) && m.Valid() && m.size == 3 && Looks(m.view.st, ChainsOf([2], [3, 1])[3 := []], STAMPS) && m.chainId == 4
    ensures c.id == 3 && 3 in m.usrChains && m.usrChains[3] == c
    ensures fresh(m.view.co.Values) && fresh(m.view.ps.Values) && 3 in m.view.mk && m.view.mk[3] == Mark(6, Some(2))
  {
    hide HierarchicalMemoryManager.Valid, Looks, Unbroken, State.Break, State.Create, Minus, Reverse, ChainsOf;
    m := ThreePages();
    Shapes();
    ThreeAt([], [2, 3, 1], []);
    ThreeAt([], [3, 1], [2]);
    Creates(m.view.st, 3, ChainsOf([], [2, 3, 1]), STAMPS);
    ghost var co := m.view.co;
    c := m.CreateMemoryChain();
    Added(co, 3, c);
    LinkTo(m, c, 2, DEFAULT, ChainsOf([], [2, 3, 1])[3 := []]);
    Breaks(m.view.st, 3, ChainsOf([], [3, 1])[3 := [2]], STAMPS);
    m.BreakMemoryChain(c);
  }

  lemma ThreeAt(h: seq<int>, s: seq<int>, t: seq<int>)
    ensures 3 !in ChainsOf(h, s)
    ensures var cs := ChainsOf(h, s)[3 := t]; cs[HATED] == h && cs[DEFAULT] == s && cs[3] == t && cs.Keys == {HATED, SPILLOVER, DEFAULT, 3}
  {
  }

  /** Page 1 is then linked to that chain, which keeps its mark. */
  method Reuse() returns (m: HierarchicalMemoryManager)
    ensures fresh(m) && m.Valid() && m.size == 3 && Looks(m.view.st, ChainsOf([2], [3])[3 := [1]], STAMPS) && m.chainId == 4
    ensures fresh(m.view.co.Values) && fresh(m.view.ps.Values) && 3 in m.view.mk && m.view.mk[3] == Mark(6, Some(2))
  {
    hide HierarchicalMemoryManager.Valid, Looks, Minus, Reverse, ChainsOf;
    var c;
    m, c := UseAndBreak();
    Shapes();
    ThreeAt([2], [3, 1], []);
    LinkTo(m, c, 1, DEFAULT, ChainsOf([2], [3, 1])[3 := []]);
  }

  /** Page 2 then goes to another chain. Nothing has been evicted yet, and evict() would now take page 3. */
  method StaleChain() returns (m: HierarchicalMemoryManager)
    ensures fresh(m) && m.Valid() && m.size == 3 && m.view.st.Ok() && m.view.mk.Keys == m.view.st.chains.Keys
    ensures Chosen(m.view.st, m.view.mk, 3) && !Optimal(m.view.st, 3) && Misled(m.view.st, m.view.mk)
    ensures forall v :: Chosen(m.view.st, m.view.mk, v) ==> v == 3
  {
    hide HierarchicalMemoryManager.Valid, Looks, Chosen, Optimal, Misled, MarksOk, Unbroken, State.Ok, State.Create, Minus;
    m := Reuse();
    Shapes();
    Creates(m.view.st, 4, ChainsOf([2], [3])[3 := [1]], STAMPS);
    ghost var co := m.view.co;
    var d := m.CreateMemoryChain();
    Added(co, 4, d);
    LinkTo(m, d, 2, HATED, ChainsOf([2], [3])[3 := [1]][4 := []]);
    m.Bounded();
    Spared(m.view.st, m.view.mk);
  }
}
