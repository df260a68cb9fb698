/** The nested block join and the exact number of its page faults
    (HierarchicalMemoryManager/src/sim/AccessPatterns.java). */
module BlockJoin {
  import opened MemoryChains
  import opened MemoryManager
  import opened Options
  import opened Paging
  import opened Representatives
  import opened Sequences

  /** The page faults of some of the pages, added up. */
  ghost function Sum(misses: map<int, nat>, ks: set<int>): nat
    requires ks <= misses.Keys
  {
    if exists k :: k in ks then
      var k :| k in ks;
      misses[k] + Sum(misses, ks - {k})
    else 0
  }

  /** All page faults so far. */
  ghost function Faults(st: State): nat {
    Sum(st.misses, st.misses.Keys)
  }

  lemma {:induction false} SumSame(m: map<int, nat>, n: map<int, nat>, ks: set<int>)
    requires ks <= m.Keys && ks <= n.Keys && forall k :: k in ks ==> m[k] == n[k]
    ensures Sum(m, ks) == Sum(n, ks)
  {
    if exists k :: k in ks {
      var k :| k in ks && Sum(m, ks) == m[k] + Sum(m, ks - {k});
      SumSame(m, n, ks - {k});
      SumTake(n, ks, k);
    }
  }

  lemma {:induction false} SumTake(m: map<int, nat>, ks: set<int>, x: int)
    requires ks <= m.Keys && x in ks
    ensures Sum(m, ks) == m[x] + Sum(m, ks - {x})
  {
    var k :| k in ks && Sum(m, ks) == m[k] + Sum(m, ks - {k});
    if k != x {
      SumTake(m, ks - {k}, x);
      SumTake(m, ks - {x}, k);
      assert ks - {k} - {x} == ks - {x} - {k};
    }
  }

  lemma SumNext(m: map<int, nat>, a: int)
    ensures var n := m[a := (if a in m then m[a] else 0) + 1]; Sum(n, n.Keys) == Sum(m, m.Keys) + 1
  {
    var n := m[a := (if a in m then m[a] else 0) + 1];
    SumTake(n, n.Keys, a);
    SumSame(m, n, m.Keys - {a});
    if a in m {
      SumTake(m, m.Keys, a);
      assert n.Keys - {a} == m.Keys - {a};
    } else {
      assert n.Keys - {a} == m.Keys && m.Keys - {a} == m.Keys;
    }
  }

  /** The states of a join in a memory of size c with its chain k: pages outside the chain return to
      the standard chain when they are loaded. */
  ghost predicate Joining(st: State, k: int, c: nat) {
    && st.Ok() && k >= 3 && st.chains.Keys == {HATED, SPILLOVER, DEFAULT, k} && st.chains[SPILLOVER] == [] && |st.resident| <= c
    && forall a :: a in st.assignedTo && a !in st.chains[k] ==> st.assignedTo[a] == -1 || st.assignedTo[a] == DEFAULT
  }

  /** Between two page faults every resident page is linked or hated. */
  lemma Placement(st: State, k: int, c: nat)
    requires Joining(st, k, c) && st.chains[DEFAULT] == []
    ensures forall a :: a in st.resident <==> a in st.chains[k] || a in st.chains[HATED]
    ensures |st.resident| == |st.chains[k]| + |st.chains[HATED]|
  {
    hide State.Ok, Distinct;
    var linked := set a | a in st.chains[k];
    var hated := set a | a in st.chains[HATED];
    ChainCount(st, k);
    ChainCount(st, HATED);
    forall a
      ensures a in st.resident <==> a in linked + hated
      ensures a in linked ==> a !in hated
    {
      if a in st.resident {
        ResidentFacts(st, a);
      }
      if a in linked {
        LinkedFacts(st, k, a);
      }
      if a in hated {
        LinkedFacts(st, HATED, a);
      }
    }
    assert st.resident == linked + hated && linked !! hated;
  }

  lemma ChainCount(st: State, k: int)
    requires st.Ok() && k in st.chains
    ensures |set a | a in st.chains[k]| == |st.chains[k]|
  {
    DistinctCount(st.chains[k]);
  }

  /** What a page fault does during a join: the last hated page makes room if the memory is full, so no
      linked page is ever evicted. */
  ghost predicate Faulted(st: State, st': State, k: int, c: nat, a: int) {
    && k in st.chains && HATED in st.chains && HATED in st'.chains && Joining(st', k, c)
    && st'.chains[k] == st.chains[k] && st'.chains[DEFAULT] == [a]
    && (if |st.resident| < c then st'.chains[HATED] == st.chains[HATED]
        else st.chains[HATED] != [] && st'.chains[HATED] == st.chains[HATED][..|st.chains[HATED]| - 1])
    && st'.stamp.Keys == st.stamp.Keys + {a} && Faults(st') == Faults(st) + 1
  }

  lemma Miss(st: State, k: int, c: nat, a: int)
    requires Joining(st, k, c) && a !in st.resident && a !in st.chains[k] && |st.resident| < c
    ensures st.Home(a) in st.chains && st.Home(a) == DEFAULT && Joining(st.Miss(a), k, c)
    ensures var m := st.Miss(a); m.chains == st.chains[DEFAULT := [a] + st.chains[DEFAULT]] && m.stamp.Keys == st.stamp.Keys + {a}
    ensures Faults(st.Miss(a)) == Faults(st) + 1
  {
    hide *;
    HomeIsDefault(st, k, c, a);
    MissShape(st, a);
    MissJoining(st, k, c, a);
    MissFaults(st, a);
  }

  lemma MissFaults(st: State, a: int)
    requires st.Home(a) in st.chains
    ensures Faults(st.Miss(a)) == Faults(st) + 1
  {
    hide Sum;
    SumNext(st.misses, a);
  }

  lemma MissJoining(st: State, k: int, c: nat, a: int)
    requires Joining(st, k, c) && a !in st.resident && |st.resident| < c && st.Home(a) == DEFAULT && DEFAULT in st.chains
    ensures Joining(st.Miss(a), k, c)
  {
    hide State.Ok, State.Miss;
    MissOk(st, a);
    MissShape(st, a);
  }

  lemma HomeIsDefault(st: State, k: int, c: nat, a: int)
    requires Joining(st, k, c) && a !in st.chains[k]
    ensures st.Home(a) == DEFAULT && DEFAULT in st.chains
  {
  }

  /** The victim of a full memory is the last hated page. */
  lemma EvictHated(st: State, mk: Marks, k: int, c: nat, u: int)
    requires Joining(st, k, c) && st.chains[HATED] != [] && mk.Keys == st.chains.Keys && Chosen(st, mk, u) && u in st.resident
    ensures var h := st.chains[HATED];
      u == h[|h| - 1] && u in st.resides && st.resides[u] == HATED && st.Evict(u).chains == st.chains[HATED := h[..|h| - 1]]
    ensures Joining(st.Evict(u), k, c) && st.Evict(u).resident == st.resident - {u}
    ensures st.Evict(u).stamp == st.stamp && st.Evict(u).misses == st.misses
  {
    hide State.Stamped, State.Assigned, Minus;
    var h := st.chains[HATED];
    assert h[|h| - 1] in h;
    LinkedFacts(st, HATED, u);
    EvictOk(st, u);
    assert Distinct(h);
    MinusLast(h);
  }

  lemma AccessFaults(st: State, mk: Marks, victim: Option<int>, st': State, k: int, c: nat, a: int)
    requires Joining(st, k, c) && st.chains[DEFAULT] == [] && |st.chains[k]| < c && a !in st.resident
    requires mk.Keys == st.chains.Keys && AfterAccess(st, mk, victim, st', a, c)
    ensures Faulted(st, st', k, c, a)
  {
    hide State.Ok, Chosen, Sum, State.Miss, State.Evict, Distinct;
    Placement(st, k, c);
    var s :| Evicted(st, mk, victim, s) && s.Home(a) in s.chains && st' == s.Miss(a);
    if victim.Some? {
      EvictHated(st, mk, k, c, victim.value);
    }
    Miss(s, k, c, a);
  }

  lemma AccessHits(st: State, mk: Marks, victim: Option<int>, st': State, k: int, c: nat, a: int)
    requires Joining(st, k, c) && a in st.resident && mk.Keys == st.chains.Keys && AfterAccess(st, mk, victim, st', a, c)
    ensures Joining(st', k, c) && st'.chains == st.chains && st'.resident == st.resident && st'.stamp.Keys == st.stamp.Keys
    ensures Faults(st') == Faults(st)
  {
    HitOk(st, a);
  }

  /** The new page is linked. */
  lemma Linked(st: State, k: int, c: nat, a: int)
    requires Joining(st, k, c) && st.chains[DEFAULT] == [a]
    ensures a in st.resident && a in st.resides && st.resides[a] == DEFAULT && Joining(st.Move(k, a), k, c)
    ensures st.Move(k, a).chains == st.chains[DEFAULT := []][k := [a] + st.chains[k]] && st.Move(k, a).resident == st.resident
    ensures st.Move(k, a).stamp == st.stamp && Faults(st.Move(k, a)) == Faults(st)
  {
    hide Distinct, Sum, State.Stamped;
    assert a in st.chains[DEFAULT];
    LinkedFacts(st, DEFAULT, a);
    MoveOk(st, k, a);
    assert Minus([a], a) == [];
  }

  /** The visited page is hated. */
  lemma Hated(st: State, k: int, c: nat, a: int)
    requires Joining(st, k, c) && st.chains[DEFAULT] == [a]
    ensures a in st.resident && a in st.resides && st.resides[a] == DEFAULT && Joining(st.Hate(a), k, c)
    ensures st.Hate(a).chains == st.chains[DEFAULT := []][HATED := [a] + st.chains[HATED]] && st.Hate(a).resident == st.resident
    ensures st.Hate(a).stamp == st.stamp && Faults(st.Hate(a)) == Faults(st)
  {
    hide Distinct, Sum, State.Stamped;
    assert a in st.chains[DEFAULT];
    LinkedFacts(st, DEFAULT, a);
    HateOk(st, a);
    assert Minus([a], a) == [];
  }

  lemma Broken(st: State, k: int, c: nat)
    requires Joining(st, k, c)
    ensures Joining(st.Break(k), k, c) && st.Break(k).resident == st.resident && st.Break(k).stamp == st.stamp
    ensures st.Break(k).chains == st.chains[k := []][HATED := Reverse(st.chains[k]) + st.chains[HATED]]
    ensures Faults(st.Break(k)) == Faults(st)
  {
    hide Distinct, Sum, State.Stamped, Reverse, State.Break;
    BreakOk(st, k);
    BreakMaps(st, k);
  }

  /** The chain holds the R blocks from l up to i. */
  ghost predicate Chunk(st: State, k: int, l: int, i: int)
    requires k in st.chains
  {
    forall a :: a in st.chains[k] <==> l <= a < i
  }

  /** The pages from lo up to hi are not resident. */
  ghost predicate Absent(st: State, lo: int, hi: int) {
    forall b :: lo <= b < hi ==> b !in st.resident
  }

  /** The pages from lo up to hi have never been used. */
  ghost predicate Unused(st: State, lo: int, hi: int) {
    forall b :: lo <= b < hi ==> b !in st.stamp
  }

  /** If a page from lo up to hi is resident it is the next victim. */
  ghost predicate NextVictim(st: State, c: nat, lo: int, hi: int)
    requires HATED in st.chains
  {
    var h := st.chains[HATED];
    forall b :: lo <= b < hi && b in st.resident ==> |st.resident| == c && h != [] && b == h[|h| - 1]
  }

  /** Some blocks l..i of R are loaded for this pass; no S block is resident once there is one. */
  ghost predicate Loading(st: State, k: int, c: nat, r: int, s: int, l: int, i: int) {
    && Joining(st, k, c) && st.chains[DEFAULT] == [] && 0 <= l <= i <= r && i - l <= c - 1 && Chunk(st, k, l, i)
    && Unused(st, i, r) && (if l < i then Absent(st, r + s, r + s + s) else i < r ==> NextVictim(st, c, r + s, r + s + s))
  }

  /** The blocks l..i of R are loaded and the first j blocks of S have been visited. If the R blocks fill
      all frames but one, that one holds the last visited S block. */
  ghost predicate Visiting(st: State, k: int, c: nat, r: int, s: int, l: int, i: int, j: int) {
    && Joining(st, k, c) && st.chains[DEFAULT] == [] && 0 <= l < i <= r && i - l <= c - 1 && Chunk(st, k, l, i)
    && Unused(st, i, r) && 0 <= j <= s && Absent(st, r + s + j, r + s + s)
    && (i - l == c - 1 && j > 0 ==> st.chains[HATED] == [r + s + j - 1])
  }

  /** {l, ..., i - 1} */
  lemma {:induction false} IntervalCount(x: set<int>, l: int, i: int)
    requires l <= i && forall a :: a in x <==> l <= a < i
    ensures |x| == i - l
    decreases i - l
  {
    if l == i {
      NoElement(x);
    } else {
      IntervalCount(x - {i - 1}, l, i - 1);
    }
  }

  lemma ChunkSize(st: State, k: int, l: int, i: int)
    requires st.Ok() && k in st.chains && Chunk(st, k, l, i) && l <= i
    ensures |st.chains[k]| == i - l
  {
    ChainCount(st, k);
    var x := set a | a in st.chains[k];
    assert forall a :: a in x <==> l <= a < i;
    IntervalCount(x, l, i);
  }

  /** Loading one more block of R. */
  lemma LoadStep(st: State, st1: State, st2: State, k: int, c: nat, r: int, s: int, l: int, i: int)
    requires Loading(st, k, c, r, s, l, i) && i < r && i - l < c - 1 && s >= 0 && Faulted(st, st1, k, c, i)
    requires st1.Ok() && i in st1.resides && st1.resides[i] in st1.chains && st2 == st1.Move(k, i)
    ensures Loading(st2, k, c, r, s, l, i + 1) && Faults(st2) == Faults(st) + 1
  {
    hide State.Ok, State.Move, Sum, Distinct;
    Linked(st1, k, c, i);
    Placement(st, k, c);
    Placement(st2, k, c);
    VictimGone(st, st1, k, c, i);
    assert Chunk(st2, k, l, i + 1);
    assert Absent(st2, r + s, r + s + s);
  }

  /** After a page fault the hated pages are among those before, without the last if memory was full. */
  lemma VictimGone(st: State, st1: State, k: int, c: nat, a: int)
    requires Joining(st, k, c) && Faulted(st, st1, k, c, a)
    ensures forall b :: b in st1.chains[HATED] ==> b in st.chains[HATED]
    ensures var h := st.chains[HATED]; |st.resident| >= c ==> h != [] && h[|h| - 1] !in st1.chains[HATED]
  {
    hide Sum, State.Stamped, State.Assigned;
    var h := st.chains[HATED];
    assert Distinct(h);
    assert |st.resident| >= c ==> forall j :: 0 <= j < |h| - 1 ==> h[j] != h[|h| - 1];
  }

  /** The page just visited is hated, and nothing else has changed but stamps. */
  ghost predicate Visited(st: State, st': State, k: int, c: nat, b: int) {
    && Joining(st', k, c) && HATED in st.chains && st'.chains == st.chains[DEFAULT := []][HATED := [b] + st.chains[HATED]]
    && st'.resident == st.resident && st'.stamp.Keys == st.stamp.Keys && Faults(st') == Faults(st)
  }

  /** Visiting one more block of S. */
  lemma VisitStep(st: State, st1: State, st2: State, k: int, c: nat, r: int, s: int, l: int, i: int, j: int)
    requires Visiting(st, k, c, r, s, l, i, j) && j < s
    requires Faulted(st, st1, k, c, r + s + j) && Visited(st1, st2, k, c, r + s + j)
    ensures Visiting(st2, k, c, r, s, l, i, j + 1) && Faults(st2) == Faults(st) + 1
  {
    hide State.Ok, Sum, Distinct;
    var b := r + s + j;
    Placement(st, k, c);
    Placement(st2, k, c);
    VictimGone(st, st1, k, c, b);
    ChunkSize(st2, k, l, i);
    assert Absent(st2, r + s + j + 1, r + s + s);
  }

  /** The end of a pass over S. */
  lemma PassEnds(st: State, k: int, c: nat, r: int, s: int, l: int, i: int)
    requires Visiting(st, k, c, r, s, l, i, s) && (i < r ==> i - l == c - 1)
    ensures Loading(st.Break(k), k, c, r, s, i, i) && Faults(st.Break(k)) == Faults(st)
  {
    hide State.Ok, State.Break, Sum, Distinct;
    Broken(st, k, c);
    Placement(st, k, c);
    ChunkSize(st, k, l, i);
    var b := st.Break(k);
    if i < r {
      forall x | r + s <= x < r + s + s && x in b.resident
        ensures |b.resident| == c && b.chains[HATED] != [] && x == b.chains[HATED][|b.chains[HATED]| - 1]
      {
        assert x !in st.chains[k] && x in st.chains[HATED];
      }
    }
  }

  /** One block of R is read and linked. */
  method LoadBlock(m: HierarchicalMemoryManager, chain: MemoryChain, i: int, ghost r: int, ghost s: int, ghost l: int)
    requires m.Valid() && chain.id in m.usrChains && m.usrChains[chain.id] == chain && s >= 0
    requires Loading(m.view.st, chain.id, m.size, r, s, l, i) && i < r && i - l < m.size - 1
    modifies m`view, m`swap, m.memory, m.memory.pages, m.pageTable, m.clock, m.view.co.Values, m.view.ps.Values
    ensures m.Valid() && m.view.co == old(m.view.co) && fresh(m.view.ps.Values - old(m.view.ps.Values))
    ensures Loading(m.view.st, chain.id, m.size, r, s, l, i + 1) && Faults(m.view.st) == Faults(old(m.view.st)) + 1
  {
    hide HierarchicalMemoryManager.Valid, Loading, Faulted, AfterAccess, AccessedMarks, MarksMoved, Faults, State.Move, State.Ok, MarksOk;
    ghost var st := m.view.st;
    ReadyToLoad(st, chain.id, m.size, r, s, l, i);
    m.Bounded();
    ghost var mk := m.view.mk;
    var victim := m.Access(i);
    ghost var st1 := m.view.st;
    AccessFaults(st, mk, victim, st1, chain.id, m.size, i);
    FaultedFacts(st, st1, chain.id, m.size, i);
    m.Link(chain, i);
    LoadStep(st, st1, m.view.st, chain.id, m.size, r, s, l, i);
  }

  lemma ReadyToLoad(st: State, k: int, c: nat, r: int, s: int, l: int, i: int)
    requires Loading(st, k, c, r, s, l, i) && i < r && i - l < c - 1
    ensures Joining(st, k, c) && st.chains[DEFAULT] == [] && |st.chains[k]| < c && i !in st.resident && c > 0
    ensures st.Home(i) in st.chains
  {
    HomeIsDefault(st, k, c, i);
    ChunkSize(st, k, l, i);
  }

  lemma FaultedFacts(st: State, st1: State, k: int, c: nat, a: int)
    requires Faulted(st, st1, k, c, a)
    ensures Joining(st1, k, c) && st1.Ok() && a in st1.resident && a in st1.resides && st1.resides[a] in st1.chains && k in st1.chains
  {
    LinkedFacts(st1, DEFAULT, a);
  }

  /** One block of S is read, joined with the blocks l up to i of R and hated. */
  method VisitBlock(m: HierarchicalMemoryManager, b: int, l: int, i: int, ghost k: int, ghost r: int, ghost s: int, ghost j: int)
    requires m.Valid() && Visiting(m.view.st, k, m.size, r, s, l, i, j) && j < s && b == r + s + j
    modifies m`view, m`swap, m.memory, m.memory.pages, m.pageTable, m.clock, m.view.co.Values, m.view.ps.Values
    ensures m.Valid() && m.view.co == old(m.view.co) && fresh(m.view.ps.Values - old(m.view.ps.Values))
    ensures Visiting(m.view.st, k, m.size, r, s, l, i, j + 1) && Faults(m.view.st) == Faults(old(m.view.st)) + 1
  {
    hide HierarchicalMemoryManager.Valid, Visiting, Faulted, AfterAccess, AccessedMarks, MarksMoved, Faults, State.Hate, State.Ok, MarksOk, Joining, Paired, Visited;
    ghost var st := m.view.st;
    ReadyToVisit(st, k, m.size, r, s, l, i, j);
    m.Bounded();
    ghost var mk := m.view.mk;
    var victim := m.Access(b);
    ghost var st1 := m.view.st;
    AccessFaults(st, mk, victim, st1, k, m.size, b);
    StartPairs(st, st1, k, m.size, r, s, l, i, j);
    Compare(m, b, l, i, k, st1);
    EndPairs(st1, m.view.st, k, m.size, l, i, b);
    m.Unlink(b);
    VisitStep(st, st1, m.view.st, k, m.size, r, s, l, i, j);
  }

  /** The records of block b and of the blocks l up to i of R are compared. */
  method Compare(m: HierarchicalMemoryManager, b: int, l: int, i: int, ghost k: int, ghost st1: State)
    requires m.Valid() && Paired(st1, m.view.st, k, m.size, l, i, b) && l < i && m.size > 0
    modifies m`view, m`swap, m.memory, m.memory.pages, m.pageTable, m.clock, m.view.co.Values, m.view.ps.Values
    ensures m.Valid() && m.view.co == old(m.view.co) && fresh(m.view.ps.Values - old(m.view.ps.Values))
    ensures Paired(st1, m.view.st, k, m.size, l, i, b)
  {
    hide HierarchicalMemoryManager.Valid, Paired;
    for x := l to i
      invariant m.Valid() && Paired(st1, m.view.st, k, m.size, l, i, b)
      invariant m.view.co == old(m.view.co) && fresh(m.view.ps.Values - old(m.view.ps.Values))
    {
      AccessPaired(m, x, st1, k, l, i, b);
      AccessPaired(m, b, st1, k, l, i, b);
    }
  }

  /** While the records of a pair of blocks are compared nothing moves. */
  ghost predicate Paired(st1: State, st: State, k: int, c: nat, l: int, i: int, b: int) {
    && Joining(st, k, c) && st.chains == st1.chains && st.resident == st1.resident && st.stamp.Keys == st1.stamp.Keys
    && Faults(st) == Faults(st1) && Chunk(st, k, l, i) && st.chains[DEFAULT] == [b]
  }

  lemma ReadyToVisit(st: State, k: int, c: nat, r: int, s: int, l: int, i: int, j: int)
    requires Visiting(st, k, c, r, s, l, i, j) && j < s
    ensures Joining(st, k, c) && k in st.chains && DEFAULT in st.chains && st.chains[DEFAULT] == [] && |st.chains[k]| < c && c > 0
    ensures r + s + j !in st.resident && st.Home(r + s + j) in st.chains
  {
    ChunkSize(st, k, l, i);
    VisitedHome(st, k, c, r, s, l, i, j);
  }

  lemma VisitedHome(st: State, k: int, c: nat, r: int, s: int, l: int, i: int, j: int)
    requires Visiting(st, k, c, r, s, l, i, j) && j < s
    ensures st.Home(r + s + j) in st.chains
  {
    var b := r + s + j;
    if b in st.chains[k] {
      LinkedFacts(st, k, b);
    }
    HomeIsDefault(st, k, c, b);
  }

  lemma StartPairs(st: State, st1: State, k: int, c: nat, r: int, s: int, l: int, i: int, j: int)
    requires Visiting(st, k, c, r, s, l, i, j) && Faulted(st, st1, k, c, r + s + j)
    ensures Paired(st1, st1, k, c, l, i, r + s + j) && l < i
  {
  }

  method AccessPaired(m: HierarchicalMemoryManager, x: int, ghost st1: State, ghost k: int, ghost l: int, ghost i: int, ghost b: int)
    requires m.Valid() && Paired(st1, m.view.st, k, m.size, l, i, b) && (l <= x < i || x == b) && m.size > 0
    modifies m`view, m`swap, m.memory, m.memory.pages, m.pageTable, m.clock, m.view.co.Values, m.view.ps.Values
    ensures m.Valid() && m.view.co == old(m.view.co) && fresh(m.view.ps.Values - old(m.view.ps.Values))
    ensures Paired(st1, m.view.st, k, m.size, l, i, b)
  {
    hide HierarchicalMemoryManager.Valid, AfterAccess, Sum, State.Ok, MarksOk, Faults;
    ghost var st := m.view.st;
    m.Bounded();
    ghost var mk := m.view.mk;
    assert st.chains[DEFAULT][0] in st.chains[DEFAULT];
    LinkedFacts(st, if x == b then DEFAULT else k, x);
    var victim := m.Access(x);
    AccessHits(st, mk, victim, m.view.st, k, m.size, x);
  }

  lemma EndPairs(st1: State, st: State, k: int, c: nat, l: int, i: int, b: int)
    requires Paired(st1, st, k, c, l, i, b)
    ensures b in st.resident && b in st.resides && st.resides[b] in st.chains && HATED in st.chains && Visited(st1, st.Hate(b), k, c, b)
  {
    hide Sum, Distinct;
    Hated(st, k, c, b);
  }

  /** As many blocks of R as leave one frame free are read. */
  method LoadChunk(m: HierarchicalMemoryManager, chain: MemoryChain, r: nat, l: nat, ghost s: nat) returns (i: nat)
    requires m.Valid() && chain.id in m.usrChains && m.usrChains[chain.id] == chain && m.size >= 2
    requires l < r && Loading(m.view.st, chain.id, m.size, r, s, l, l)
    modifies m`view, m`swap, m.memory, m.memory.pages, m.pageTable, m.clock, m.view.co.Values, m.view.ps.Values
    ensures m.Valid() && m.view.co == old(m.view.co) && fresh(m.view.ps.Values - old(m.view.ps.Values))
    ensures l < i <= r && (i == r || i == l + m.size - 1) && i - l <= m.size - 1
    ensures Loading(m.view.st, chain.id, m.size, r, s, l, i) && Faults(m.view.st) == Faults(old(m.view.st)) + (i - l)
  {
    hide HierarchicalMemoryManager.Valid, Loading, Faults;
    i := l;
    var j := 0;
    while j < m.size - 1 && i < r
      invariant m.Valid() && Loading(m.view.st, chain.id, m.size, r, s, l, i) && i == l + j <= r && j <= m.size - 1
      invariant m.view.co == old(m.view.co) && fresh(m.view.ps.Values - old(m.view.ps.Values))
      invariant Faults(m.view.st) == Faults(old(m.view.st)) + j
    {
      LoadBlock(m, chain, i, r, s, l);
      j, i := j + 1, i + 1;
    }
  }

  /** One pass over S. */
  method VisitAll(m: HierarchicalMemoryManager, r: nat, s: nat, l: nat, i: nat, ghost k: int)
    requires m.Valid() && l < i && Loading(m.view.st, k, m.size, r, s, l, i)
    modifies m`view, m`swap, m.memory, m.memory.pages, m.pageTable, m.clock, m.view.co.Values, m.view.ps.Values
    ensures m.Valid() && m.view.co == old(m.view.co) && fresh(m.view.ps.Values - old(m.view.ps.Values))
    ensures Visiting(m.view.st, k, m.size, r, s, l, i, s) && Faults(m.view.st) == Faults(old(m.view.st)) + s
  {
    hide HierarchicalMemoryManager.Valid, Loading, Visiting, Faults;
    PassBegins(m.view.st, k, m.size, r, s, l, i);
    for j := r + s to r + s + s
      invariant m.Valid() && Visiting(m.view.st, k, m.size, r, s, l, i, j - r - s)
      invariant m.view.co == old(m.view.co) && fresh(m.view.ps.Values - old(m.view.ps.Values))
      invariant Faults(m.view.st) == Faults(old(m.view.st)) + (j - r - s)
    {
      VisitBlock(m, j, l, i, k, r, s, j - r - s);
    }
  }

  lemma PassBegins(st: State, k: int, c: nat, r: int, s: int, l: int, i: int)
    requires Loading(st, k, c, r, s, l, i) && l < i && s >= 0
    ensures Visiting(st, k, c, r, s, l, i, 0)
  {
  }

  /** p passes have got as far as block i of R. */
  ghost predicate Passes(p: nat, i: nat, r: nat, c: nat) {
    i <= r && if i < r then i == p * (c - 1) else r <= p * (c - 1) < r + (c - 1)
  }

  lemma NextPass(p: nat, l: nat, i: nat, r: nat, s: nat, c: nat)
    requires Passes(p, l, r, c) && l < r && c >= 2 && l < i <= r && (i == r || i == l + (c - 1)) && i - l <= c - 1
    ensures Passes(p + 1, i, r, c) && (p + 1) * s == p * s + s
  {
    assert (p + 1) * (c - 1) == p * (c - 1) + (c - 1);
  }

  lemma AllPasses(p: nat, r: nat, c: nat)
    requires Passes(p, r, r, c) && c >= 2
    ensures p == (r + c - 2) / (c - 1)
  {
    var d := c - 1;
    assert p * d <= r + d - 1 < (p + 1) * d by {
      assert (p + 1) * d == p * d + d;
    }
    Quotient(r + d - 1, d, p);
  }

  lemma Quotient(x: nat, d: nat, p: nat)
    requires d > 0 && p * d <= x < (p + 1) * d
    ensures x / d == p
  {
    var q := x / d;
    assert q * d <= x < (q + 1) * d;
    TimesOrdered(q + 1, p, d);
    TimesOrdered(p + 1, q, d);
  }

  lemma TimesOrdered(a: nat, b: nat, d: nat)
    ensures a <= b ==> a * d <= b * d
  {
  }

  /** A chunk of R against all of S, and the chunk is given up. */
  method JoinPass(m: HierarchicalMemoryManager, chain: MemoryChain, r: nat, s: nat, l: nat) returns (i: nat)
    requires m.Valid() && chain.id in m.usrChains && m.usrChains[chain.id] == chain && m.size >= 2
    requires l < r && Loading(m.view.st, chain.id, m.size, r, s, l, l)
    modifies m`view, m`swap, m.memory, m.memory.pages, m.pageTable, m.clock, m.view.co.Values, m.view.ps.Values
    ensures m.Valid() && m.view.co == old(m.view.co) && fresh(m.view.ps.Values - old(m.view.ps.Values))
    ensures l < i <= r && (i == r || i == l + m.size - 1) && i - l <= m.size - 1
    ensures Loading(m.view.st, chain.id, m.size, r, s, i, i) && Faults(m.view.st) == Faults(old(m.view.st)) + (i - l) + s
  {
    hide HierarchicalMemoryManager.Valid, Loading, Visiting, Faults, State.Break;
    i := LoadChunk(m, chain, r, l, s);
    VisitAll(m, r, s, l, i, chain.id);
    PassEnds(m.view.st, chain.id, m.size, r, s, l, i);
    m.BreakMemoryChain(chain);
  }

  /** All passes. */
  method JoinAll(m: HierarchicalMemoryManager, chain: MemoryChain, r: nat, s: nat)
    requires m.Valid() && chain.id in m.usrChains && m.usrChains[chain.id] == chain && m.size >= 2
    requires Loading(m.view.st, chain.id, m.size, r, s, 0, 0) && Faults(m.view.st) == 0
    modifies m`view, m`swap, m.memory, m.memory.pages, m.pageTable, m.clock, m.view.co.Values, m.view.ps.Values
    ensures m.Valid() && Loading(m.view.st, chain.id, m.size, r, s, r, r)
    ensures m.view.co == old(m.view.co) && fresh(m.view.ps.Values - old(m.view.ps.Values))
    ensures Faults(m.view.st) == r + ((r + m.size - 2) / (m.size - 1)) * s
  {
    hide HierarchicalMemoryManager.Valid, Loading, Faults, Passes;
    var i := 0;
    ghost var p := 0;
    NoPass(r, m.size);
    while i < r
      invariant m.Valid() && i <= r && Loading(m.view.st, chain.id, m.size, r, s, i, i)
      invariant Passes(p, i, r, m.size) && Faults(m.view.st) == i + p * s
      invariant m.view.co == old(m.view.co) && fresh(m.view.ps.Values - old(m.view.ps.Values))
      decreases r - i
    {
      var l := i;
      i := JoinPass(m, chain, r, s, l);
      NextPass(p, l, i, r, s, m.size);
      p := p + 1;
    }
    AllPasses(p, r, m.size);
  }

  lemma NoPass(r: nat, c: nat)
    requires c >= 2
    ensures Passes(0, 0, r, c)
  {
  }

  /** Joining r blocks of R with s blocks of S on a new manager of c >= 2 frames causes exactly r page
      faults for R and one for every block of S in each of the ceiling of r / (c - 1) passes. */
  method TraceBlockJoin(m: HierarchicalMemoryManager, r: nat, s: nat)
    requires m.Valid() && m.view.st == Empty(m.view.st.clock) && m.size >= 2
    modifies m, m.memory, m.memory.pages, m.pageTable, m.clock, m.view.co.Values, m.view.ps.Values
    ensures m.Valid() && Faults(m.view.st) == r + ((r + m.size - 2) / (m.size - 1)) * s
  {
    hide HierarchicalMemoryManager.Valid, Loading, Faults, State.Release, Empty, State.Create;
    var chain := m.CreateMemoryChain();
    JoinBegins(old(m.view.st.clock), chain.id, m.size, r, s);
    JoinAll(m, chain, r, s);
    JoinEnds(m.view.st, chain.id, m.size, r, s, r);
    m.ReleaseMemoryChain(chain);
  }

  lemma JoinBegins(clock: nat, k: int, c: nat, r: nat, s: nat)
    requires c >= 2 && k >= 3
    ensures Loading(Empty(clock).Create(k), k, c, r, s, 0, 0) && Faults(Empty(clock).Create(k)) == 0
  {
  }

  lemma JoinEnds(st: State, k: int, c: nat, r: nat, s: nat, i: nat)
    requires Loading(st, k, c, r, s, i, i)
    ensures k in st.chains && HATED in st.chains && forall a :: a in st.assignedTo && a !in st.resident ==> st.assignedTo[a] != k
    ensures Faults(st.Release(k)) == Faults(st)
  {
    Broken(st, k, c);
  }
}
