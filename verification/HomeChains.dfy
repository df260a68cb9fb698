/** Which chain a page comes back to: link(chain, a) binds page a to the chain, through evictions and whatever
    happens to other pages and chains, until the page is moved or the chain broken or released. */
module HomeChains {
  import opened MemoryChains
  import opened MemoryManager
  import opened Options
  import opened Paging
  import opened Representatives
  import opened Sequences

  /** The operations of the manager on its state. */
  datatype Op =
    | Hit(a: int) | Miss(a: int) | Evict(a: int) | Move(k: int, a: int)
    | Hate(a: int) | Create(k: int) | Break(k: int) | Release(k: int)

  predicate Enabled(st: State, op: Op) {
    match op
    case Hit(a) => a in st.resident
    case Miss(a) => a !in st.resident && st.Home(a) in st.chains
    case Evict(a) => a in st.resident
    case Move(k, a) => a in st.resident && k in st.chains && !IsSystem(k)
    case Hate(a) => a in st.resident
    case Create(k) => k !in st.chains && k > DEFAULT
    case Break(k) => k in st.chains && !IsSystem(k)
    case Release(k) => k in st.chains && !IsSystem(k)
  }

  function Next(st: State, op: Op): State
    requires st.Ok() && Enabled(st, op)
  {
    match op
    case Hit(a) => st.Hit(a)
    case Miss(a) => st.Miss(a)
    case Evict(a) => st.Evict(a)
    case Move(k, a) => st.Move(k, a)
    case Hate(a) => st.Hate(a)
    case Create(k) => st.Create(k)
    case Break(k) => st.Break(k)
    case Release(k) => st.Release(k)
  }

  lemma NextOk(st: State, op: Op)
    requires st.Ok() && Enabled(st, op)
    ensures Next(st, op).Ok()
  {
    hide State.Ok, State.Hit, State.Miss, State.Evict, State.Move, State.Hate, State.Create, State.Break, State.Release;
    match op {
      case Hit(a) => HitOk(st, a);
      case Miss(a) => MissOk(st, a);
      case Evict(a) => EvictOk(st, a);
      case Move(k, a) => MoveOk(st, k, a);
      case Hate(a) => HateOk(st, a);
      case Create(k) => CreateOk(st, k);
      case Break(k) => BreakOk(st, k);
      case Release(k) => ReleaseOk(st, k);
    }
  }

  /** The operation does not rebind page a to another chain than k. */
  predicate Spares(op: Op, k: int, a: int) {
    match op
    case Move(_, b) => b != a
    case Hate(b) => b != a
    case Break(j) => j != k
    case Release(j) => j != k
    case _ => true
  }

  ghost predicate Run(st: State, ops: seq<Op>)
    requires st.Ok()
    decreases |ops|
  {
    ops == [] || (Enabled(st, ops[0]) && Next(st, ops[0]).Ok() && Run(Next(st, ops[0]), ops[1..]))
  }

  ghost function After(st: State, ops: seq<Op>): (r: State)
    requires st.Ok() && Run(st, ops)
    ensures r.Ok()
    decreases |ops|
  {
    if ops == [] then st else After(Next(st, ops[0]), ops[1..])
  }

  /** Page a is bound to chain k: it resides there, or comes back there. */
  ghost predicate Bound(st: State, k: int, a: int) {
    k in st.chains && a in st.assignedTo && st.assignedTo[a] == k
  }

  lemma BoundKept(st: State, op: Op, k: int, a: int)
    requires st.Ok() && Enabled(st, op) && Bound(st, k, a) && Spares(op, k, a) && (!IsSystem(k) || k == DEFAULT)
    ensures Bound(Next(st, op), k, a)
  {
    hide State.Stamped, Distinct, State.HateAll;
    match op {
      case Break(j) => BoundByBreak(st, j, k, a);
      case Release(j) => BoundByBreak(st, j, k, a);
      case _ =>
    }
  }

  lemma BoundByBreak(st: State, j: int, k: int, a: int)
    requires st.Ok() && j in st.chains && !IsSystem(j) && j != k && Bound(st, k, a) && (!IsSystem(k) || k == DEFAULT)
    ensures Bound(st.Break(j), k, a)
  {
    hide State.Stamped, State.Break, Distinct;
    BreakMaps(st, j);
    if a in st.chains[j] {
      LinkedFacts(st, j, a);
    }
  }

  /** link(k, a) binds the page, whatever chain it comes from. */
  lemma LinkBinds(st: State, k: int, a: int)
    requires st.Ok() && a in st.resident && k in st.chains && !IsSystem(k)
    ensures Bound(st.Move(k, a), k, a) && st.Move(k, a).resides[a] == k
    ensures st.Move(k, a).Ok() && a in st.Move(k, a).chains[k]
    ensures st.resides[a] != k ==> st.Move(k, a).chains[k] == [a] + st.chains[k]
  {
    MoveOk(st, k, a);
    assert st.Move(k, a).resides[a] == k;
  }

  /** unlink(a) of a page that is not hated binds it to the standard chain, and the page is the last of the
      hated pages to go. */
  lemma HateBinds(st: State, a: int)
    requires st.Ok() && a in st.resident && st.resides[a] != HATED
    ensures Bound(st.Hate(a), DEFAULT, a)
    ensures st.Hate(a).resides[a] == HATED && st.Hate(a).chains[HATED] == [a] + st.chains[HATED]
  {
  }

  /** Breaking a chain binds all its pages to the standard chain. */
  lemma BreakBinds(st: State, k: int, a: int)
    requires st.Ok() && k in st.chains && !IsSystem(k) && a in st.chains[k]
    ensures Bound(st.Break(k), DEFAULT, a) && a in st.Break(k).chains[HATED]
  {
    hide State.Break, State.Stamped, Distinct;
    LinkedFacts(st, k, a);
    BreakMaps(st, k);
    InReverse(st.chains[k], a);
  }

  lemma InReverse(s: seq<int>, a: int)
    requires a in s
    ensures a in Reverse(s)
  {
    var i :| 0 <= i < |s| && s[i] == a;
    assert Reverse(s)[|s| - 1 - i] == a;
  }

  lemma {:induction false} BoundAlways(st: State, ops: seq<Op>, k: int, a: int)
    requires st.Ok() && Run(st, ops) && Bound(st, k, a) && (!IsSystem(k) || k == DEFAULT)
    requires forall i :: 0 <= i < |ops| ==> Spares(ops[i], k, a)
    ensures Bound(After(st, ops), k, a)
    decreases |ops|
  {
    hide State.Ok, Next, Enabled, Bound, Spares;
    if ops != [] {
      BoundKept(st, ops[0], k, a);
      BoundAlways(Next(st, ops[0]), ops[1..], k, a);
    }
  }

  /** The law of link: after link(k, a) and any operations that spare the binding, page a is in chain k while it
      is resident, and if it has been evicted the next access puts it at the head of chain k. */
  lemma ComesBack(st: State, k: int, a: int, ops: seq<Op>)
    requires st.Ok() && a in st.resident && k in st.chains && !IsSystem(k)
    requires st.Move(k, a).Ok() && Run(st.Move(k, a), ops) && forall i :: 0 <= i < |ops| ==> Spares(ops[i], k, a)
    ensures var s := After(st.Move(k, a), ops);
      && (a in s.resident ==> a in s.resides && s.resides[a] == k)
      && (a !in s.resident ==> s.Home(a) == k && k in s.chains && s.Miss(a).chains[k] == [a] + s.chains[k])
  {
    hide Run, After, State.Stamped, Spares, Distinct;
    LinkBinds(st, k, a);
    BoundAlways(st.Move(k, a), ops, k, a);
  }

  // ------------------------------------------------------------------------------------------- a run

  /** The states of a manager of one frame: page 7 is used, linked to chain 3, and evicted for page 8. */
  function Used(): State {
    State(2, {7}, map[HATED := [], SPILLOVER := [], DEFAULT := [7]], map[7 := DEFAULT],
          map[7 := 2], map[7 := -1], map[7 := 1])
  }

  function Linked(): State {
    State(2, {7}, map[HATED := [], SPILLOVER := [], DEFAULT := [], 3 := [7]], map[7 := 3],
          map[7 := 2], map[7 := 3], map[7 := 1])
  }

  function Away(): State {
    State(4, {8}, map[HATED := [], SPILLOVER := [], DEFAULT := [8], 3 := []], map[8 := DEFAULT],
          map[7 := 2, 8 := 4], map[7 := 3, 8 := -1], map[7 := 1, 8 := 1])
  }

  lemma FirstUse(mk: Marks, victim: Option<int>, st: State)
    requires mk.Keys == Empty(0).chains.Keys && AfterAccess(Empty(0), mk, victim, st, 7, 1)
    ensures st == Used()
  {
    hide Chosen;
    var e := Empty(0);
    assert e.Home(7) == DEFAULT;
    assert Used().resident == e.resident + {7};
    assert [7] + e.chains[DEFAULT] == [7];
    assert Used().chains == e.chains[DEFAULT := [7] + e.chains[DEFAULT]];
    assert Used().resides == e.resides[7 := DEFAULT];
    assert Used().stamp == e.stamp[7 := 2];
    assert Used().assignedTo == e.assignedTo[7 := -1];
    assert Used().misses == e.misses[7 := 1];
    MissIs(e, 7, Used());
  }

  /** A page fault in the standard chain, field by field. */
  lemma MissIs(st: State, a: int, st': State)
    requires st.Home(a) == DEFAULT && DEFAULT in st.chains && st'.clock == st.clock + 2 && st'.resident == st.resident + {a}
    requires st'.chains == st.chains[DEFAULT := [a] + st.chains[DEFAULT]] && st'.resides == st.resides[a := DEFAULT]
    requires st'.stamp == st.stamp[a := st.clock + 2] && a !in st.assignedTo && st'.assignedTo == st.assignedTo[a := -1]
    requires a !in st.misses && st'.misses == st.misses[a := 1]
    ensures st.Miss(a) == st'
  {
  }

  lemma LinkUsed()
    ensures Used().Create(3).Move(3, 7) == Linked()
  {
    assert Minus([7], 7) == [];
    var c := Used().Create(3);
    var st := c.Move(3, 7);
    assert c.chains[3] == [] && [7] + c.chains[3] == [7];
    assert st.chains == c.chains[DEFAULT := []][3 := [7]];
    assert st.chains == Linked().chains;
    assert st.resides == Linked().resides;
    assert st.assignedTo == Linked().assignedTo;
  }

  lemma EvictLinked()
    ensures var e := Linked().Evict(7);
      && e.clock == 2 && e.resident == {} && e.resides == map[] && e.stamp == Linked().stamp && e.assignedTo == Linked().assignedTo
      && e.misses == Linked().misses && e.chains == map[HATED := [], SPILLOVER := [], DEFAULT := [], 3 := []]
  {
    assert Minus([7], 7) == [];
  }

  lemma SecondUse(mk: Marks, victim: Option<int>, st: State)
    requires mk.Keys == Linked().chains.Keys && AfterAccess(Linked(), mk, victim, st, 8, 1)
    ensures st == Away()
  {
    hide Chosen, State.Evict, State.Miss, State.Ok;
    EvictLinked();
    var e := Linked().Evict(7);
    assert Away().resident == e.resident + {8};
    assert [8] + e.chains[DEFAULT] == [8];
    assert Away().chains == e.chains[DEFAULT := [8] + e.chains[DEFAULT]];
    assert Away().resides == e.resides[8 := DEFAULT];
    assert Away().stamp == e.stamp[8 := 4];
    assert Away().assignedTo == e.assignedTo[8 := -1];
    assert Away().misses == e.misses[8 := 1];
    MissIs(e, 8, Away());
  }

  lemma Reached()
    ensures Away().Home(7) == 3 && 7 !in Away().resident && 3 in Away().chains && !IsSystem(3)
    ensures Linked().Home(8) in Linked().chains && Empty(0).Home(7) in Empty(0).chains
    ensures Used().chains.Keys == {HATED, SPILLOVER, DEFAULT} && 7 in Used().Create(3).resident
    ensures HATED in Away().chains && Linked().chains.Keys == Away().chains.Keys
  {
  }

  lemma Joined(co: map<int, MemoryChain>, k: int, c: MemoryChain)
    ensures co[k := c].Values <= co.Values + {c}
  {
  }

  /** A manager of one frame that has used page 7. */
  method UseOne() returns (m: HierarchicalMemoryManager)
    ensures fresh(m) && m.Valid() && m.size == 1 && m.chainId == 3 && m.view.st == Used()
    ensures fresh(m.memory) && fresh(m.memory.pages) && fresh(m.pageTable) && fresh(m.clock)
    ensures fresh(m.view.co.Values) && fresh(m.view.ps.Values)
  {
    hide HierarchicalMemoryManager.Valid, AfterAccess, AccessedMarks, MarksOk, Unbroken, State.Ok, Empty, Used, Linked, Away;
    var clock := new LogicalClock(0);
    m := new HierarchicalMemoryManager(1, clock);
    m.Bounded();
    Reached();
    ghost var mk := m.view.mk;
    var victim := m.Access(7);
    FirstUse(mk, victim, m.view.st);
  }

  /** Page 7 is linked to a chain. */
  method LinkOne() returns (m: HierarchicalMemoryManager, c: MemoryChain)
    ensures fresh(m) && m.Valid() && m.size == 1 && m.view.st == Linked() && c.id == 3 && 3 in m.usrChains && m.usrChains[3] == c
    ensures fresh(m.memory) && fresh(m.memory.pages) && fresh(m.pageTable) && fresh(m.clock)
    ensures fresh(m.view.co.Values) && fresh(m.view.ps.Values)
  {
    hide HierarchicalMemoryManager.Valid, MarksMoved, MarksOk, Unbroken, State.Ok, State.Move, State.Create, Used, Linked, Away;
    m := UseOne();
    Reached();
    ghost var co := m.view.co;
    c := m.CreateMemoryChain();
    Joined(co, 3, c);
    LinkUsed();
    m.Link(c, 7);
  }

  /** Page 7 is evicted for page 8. */
  method UseOther(m: HierarchicalMemoryManager)
    requires m.Valid() && m.size == 1 && m.view.st == Linked()
    modifies m`view, m`swap, m.memory, m.memory.pages, m.pageTable, m.clock, m.view.co.Values, m.view.ps.Values
    ensures m.Valid() && m.view.st == Away()
    ensures m.view.co == old(m.view.co) && fresh(m.view.ps.Values - old(m.view.ps.Values))
  {
    hide HierarchicalMemoryManager.Valid, AfterAccess, AccessedMarks, MarksOk, Unbroken, State.Ok, Linked, Away, Grown, State.Home;
    Reached();
    m.Bounded();
    ghost var mk := m.view.mk;
    var victim := m.Access(8);
    SecondUse(mk, victim, m.view.st);
  }

  method EvictOne() returns (m: HierarchicalMemoryManager, c: MemoryChain)
    ensures fresh(m) && m.Valid() && m.size == 1 && m.view.st == Away() && c.id == 3 && 3 in m.usrChains && m.usrChains[3] == c
    ensures fresh(m.memory) && fresh(m.memory.pages) && fresh(m.pageTable) && fresh(m.clock)
    ensures fresh(m.view.co.Values) && fresh(m.view.ps.Values)
  {
    hide HierarchicalMemoryManager.Valid, Linked, Away;
    m, c := LinkOne();
    UseOther(m);
  }

  /** The next access puts page 7 back into the chain. */
  method Returns() returns (m: HierarchicalMemoryManager)
    ensures fresh(m) && m.Valid() && 3 in m.view.st.chains && m.view.st.chains[3] == [7] && m.view.st.resident == {7}
  {
    hide HierarchicalMemoryManager.Valid, AccessedMarks, MarksOk, Unbroken, State.Ok;
    var c;
    m, c := EvictOne();
    Reached();
    m.Bounded();
    ghost var mk := m.view.mk;
    var victim := m.Access(7);
    ThirdUse(mk, victim, m.view.st);
  }

  lemma ThirdUse(mk: Marks, victim: Option<int>, st: State)
    requires mk.Keys == Away().chains.Keys && AfterAccess(Away(), mk, victim, st, 7, 1)
    ensures 3 in st.chains && st.chains[3] == [7] && st.resident == {7}
  {
    hide Chosen, State.Ok;
    assert Minus([8], 8) == [];
    var e := Away().Evict(8);
    assert e.chains[3] == [] && [7] + e.chains[3] == [7] && e.Home(7) == 3;
  }

  /** Once the chain is released, the chain that page 7 would come back to is gone. */
  method Strands() returns (m: HierarchicalMemoryManager)
    ensures fresh(m) && m.Valid() && 7 !in m.view.st.resident && m.view.st.Home(7) == 3 && 3 !in m.view.st.chains
  {
    hide HierarchicalMemoryManager.Valid, Unbroken, State.Ok, State.Release;
    var c;
    m, c := EvictOne();
    Reached();
    m.ReleaseMemoryChain(c);
    Released();
  }

  lemma Released()
    ensures 3 in Away().chains && HATED in Away().chains
    ensures var st := Away().Release(3); 7 !in st.resident && st.Home(7) == 3 && 3 !in st.chains
  {
    hide State.Ok;
    assert Away().chains[3] == [];
  }
}
