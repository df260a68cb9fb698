/** The states of the hierarchical memory manager as values: which pages are resident, in which chain
    and order, and when they were last used (HierarchicalMemoryManager/src/mem). */
module Paging {
  import opened Sequences

  const HATED := 0
  const SPILLOVER := 1
  const DEFAULT := 2

  predicate IsSystem(k: int) {
    HATED <= k <= DEFAULT
  }

  function StampAt(stamp: map<int, nat>, a: int): nat {
    if a in stamp then stamp[a] else 0
  }

  /** The largest stamp of the pages of a chain, 0 if it has none. */
  function Latest(stamp: map<int, nat>, s: seq<int>): (m: nat)
    ensures forall i :: 0 <= i < |s| ==> StampAt(stamp, s[i]) <= m
    ensures s != [] ==> exists i :: 0 <= i < |s| && StampAt(stamp, s[i]) == m
  {
    if s == [] then 0
    else
      var m := Latest(stamp, s[1..]);
      assert s[1..] != [] ==> exists i :: 1 <= i < |s| && StampAt(stamp, s[i]) == m by {
        if s[1..] != [] {
          var i :| 0 <= i < |s[1..]| && StampAt(stamp, s[1..][i]) == m;
          assert s[1..][i] == s[i + 1];
        }
      }
      assert forall i :: 1 <= i < |s| ==> s[i] == s[1..][i - 1];
      if StampAt(stamp, s[0]) >= m then StampAt(stamp, s[0]) else m
  }

  /** resident: the addresses in the page table. resides: the chain a page is linked to. stamp,
      assigned and misses are about every page ever used; assigned is -1 until a page is linked. */
  datatype State = State(clock: nat, resident: set<int>, chains: map<int, seq<int>>, resides: map<int, int>,
                         stamp: map<int, nat>, assignedTo: map<int, int>, misses: map<int, nat>)
  {
    /** Every page is in the chain it resides in, once, and in no other. */
    ghost predicate Placed() {
      && (forall k :: k in chains ==> Distinct(chains[k]))
      && (forall k, a {:trigger a in chains[k]} :: k in chains && a in chains[k] ==> a in resides && resides[a] == k)
      && (forall a :: a in resides ==> resides[a] in chains && a in chains[resides[a]])
    }

    /** The stamps are distinct and not in the future. */
    ghost predicate Stamped() {
      && (forall a :: a in stamp ==> 0 < stamp[a] <= clock)
      && (forall a, b :: a in stamp && b in stamp && a != b ==> stamp[a] != stamp[b])
    }

    /** Resident pages are assigned to live chains, and those assigned to a user chain are in it. A page
        that is not resident may be assigned to a chain that has been released. */
    ghost predicate Assigned() {
      && (forall a :: a in assignedTo && a in resides ==> assignedTo[a] == -1 || assignedTo[a] in chains)
      && (forall a :: a in assignedTo && a in resides && !IsSystem(assignedTo[a]) && assignedTo[a] != -1 ==> resides[a] == assignedTo[a])
    }

    ghost predicate Known() {
      && resident == resides.Keys && resident <= stamp.Keys
      && assignedTo.Keys == misses.Keys == stamp.Keys
      && HATED in chains && SPILLOVER in chains && DEFAULT in chains && -1 !in chains
    }

    ghost predicate Ok() {
      Placed() && Stamped() && Assigned() && Known()
    }

    function Unlink(a: int): State
      requires a in resides && resides[a] in chains
    {
      this.(chains := chains[resides[a] := Minus(chains[resides[a]], a)], resides := resides - {a})
    }

    function Link(k: int, a: int): State
      requires k in chains
    {
      this.(chains := chains[k := [a] + chains[k]], resides := resides[a := k])
    }

    function Assign(a: int, k: int): State {
      this.(assignedTo := assignedTo[a := k])
    }

    function Hit(a: int): State {
      this.(clock := clock + 1, stamp := stamp[a := clock + 1])
    }

    /** A page is known from its first use on. */
    function Meet(a: int): State {
      if a in stamp then this else this.(stamp := stamp[a := 0], assignedTo := assignedTo[a := -1], misses := misses[a := 0])
    }

    function Loaded(a: int): State
      requires a in misses
    {
      this.(clock := clock + 1, stamp := stamp[a := clock + 1], misses := misses[a := misses[a] + 1])
    }

    function Occupy(a: int): State {
      this.(resident := resident + {a})
    }

    function Vacate(a: int): State {
      this.(resident := resident - {a})
    }

    /** The chain a page enters when it is loaded. */
    function Home(a: int): int {
      if a in assignedTo && assignedTo[a] != -1 then assignedTo[a] else DEFAULT
    }

    /** A page fault brings a in: load and ref each draw a stamp. */
    function Admit(a: int): State {
      State(clock + 2, resident + {a}, chains, resides, stamp[a := clock + 2],
            if a in assignedTo then assignedTo else assignedTo[a := -1],
            misses[a := (if a in misses then misses[a] else 0) + 1])
    }

    function Miss(a: int): State
      requires Home(a) in chains
    {
      Admit(a).Link(Home(a), a)
    }

    function Evict(a: int): State
      requires a in resides && resides[a] in chains
    {
      Unlink(a).Vacate(a)
    }

    /** link(chain k, a). */
    function Move(k: int, a: int): State
      requires k in chains && a in resides && resides[a] in chains
    {
      if resides[a] == k then Assign(a, k) else Unlink(a).Assign(a, k).Link(k, a)
    }

    /** unlink(a): the page is hated unless it already is. */
    function Hate(a: int): State
      requires a in resides && resides[a] in chains && HATED in chains
    {
      if resides[a] == HATED then this else Unlink(a).Assign(a, DEFAULT).Link(HATED, a)
    }

    /** unchain: the members of k reside nowhere. */
    function Unchain(k: int): State
      requires k in chains
    {
      this.(chains := chains[k := []], resides := resides - (set a | a in chains[k]))
    }

    /** Pages residing nowhere are hated one after the other. */
    function HateAll(s: seq<int>): (r: State)
      requires HATED in chains
      ensures r.chains.Keys == chains.Keys
      decreases |s|
    {
      if s == [] then this else Assign(s[0], DEFAULT).Link(HATED, s[0]).HateAll(s[1..])
    }

    /** breakMemoryChain(k). */
    function Break(k: int): State
      requires k in chains && HATED in chains
    {
      Unchain(k).HateAll(chains[k])
    }

    function Create(k: int): State {
      this.(chains := chains[k := []])
    }

    function Release(k: int): State
      requires k in chains && HATED in chains
    {
      var b := Break(k);
      b.(chains := b.chains - {k})
    }
  }

  /** The state of a new manager. */
  function Empty(clock: nat): State {
    State(clock, {}, map[HATED := [], SPILLOVER := [], DEFAULT := []], map[], map[], map[], map[])
  }

  lemma PlacedUnlink(st: State, a: int)
    requires st.Placed() && a in st.resides
    ensures st.Unlink(a).Placed()
  {
    var k := st.resides[a];
    MinusElements(st.chains[k], a);
  }

  lemma PlacedLink(st: State, k: int, a: int)
    requires st.Placed() && a !in st.resides && k in st.chains
    ensures st.Link(k, a).Placed()
  {
    var s := st.chains[k];
    assert a !in s;
    forall b
      ensures b in [a] + s <==> b == a || b in s
    {
    }
    assert Distinct([a] + s);
  }

  lemma HitOk(st: State, a: int)
    requires st.Ok() && a in st.resident
    ensures st.Hit(a).Ok()
  {
  }

  /** The steps of a page fault amount to Admit. */
  lemma AdmitSteps(st: State, a: int)
    requires st.Known()
    ensures a in st.Meet(a).misses && st.Meet(a).Loaded(a).Hit(a).Occupy(a) == st.Admit(a)
  {
    var m := st.Meet(a);
    assert m.stamp[a := st.clock + 1][a := st.clock + 2] == st.stamp[a := st.clock + 2];
    assert m.misses[a := m.misses[a] + 1] == st.Admit(a).misses;
  }

  lemma MissOk(st: State, a: int)
    requires st.Ok() && a !in st.resident && st.Home(a) in st.chains
    ensures st.Miss(a).Ok()
  {
    MissPlaced(st, a);
    MissStamped(st, a);
    MissAssigned(st, a);
    hide *;
    assert st.Miss(a).Ok();
  }

  /** What a page fault does to a page that enters the standard chain. */
  lemma MissShape(st: State, a: int)
    requires st.Home(a) == DEFAULT && DEFAULT in st.chains
    ensures var m := st.Miss(a);
      && m.chains == st.chains[DEFAULT := [a] + st.chains[DEFAULT]] && m.resident == st.resident + {a}
      && m.clock == st.clock + 2 && m.stamp == st.stamp[a := st.clock + 2]
    ensures forall b :: b in st.Miss(a).assignedTo ==>
      (b in st.assignedTo && st.Miss(a).assignedTo[b] == st.assignedTo[b]) || st.Miss(a).assignedTo[b] == -1
  {
  }

  lemma MissPlaced(st: State, a: int)
    requires st.Ok() && a !in st.resident && st.Home(a) in st.chains
    ensures st.Miss(a).Placed()
  {
    PlacedLink(st, st.Home(a), a);
    PlacedSame(st.Link(st.Home(a), a), st.Miss(a));
  }

  lemma PlacedSame(st: State, st': State)
    requires st.Placed() && st'.chains == st.chains && st'.resides == st.resides
    ensures st'.Placed()
  {
  }

  lemma MissStamped(st: State, a: int)
    requires st.Stamped() && st.Home(a) in st.chains
    ensures st.Miss(a).Stamped()
  {
  }

  lemma MissAssigned(st: State, a: int)
    requires st.Assigned() && st.Known() && a !in st.resident && st.Home(a) in st.chains
    ensures st.Miss(a).Assigned() && st.Miss(a).Known()
  {
  }

  lemma EvictOk(st: State, a: int)
    requires st.Ok() && a in st.resident
    ensures st.Evict(a).Ok() && st.Evict(a).resident == st.resident - {a}
  {
    PlacedUnlink(st, a);
    PlacedSame(st.Unlink(a), st.Evict(a));
  }

  lemma MoveOk(st: State, k: int, a: int)
    requires st.Ok() && a in st.resident && k in st.chains && !IsSystem(k)
    ensures st.Move(k, a).Ok() && st.Move(k, a).resident == st.resident
  {
    if st.resides[a] != k {
      var u := st.Unlink(a);
      PlacedUnlink(st, a);
      PlacedSame(u, u.Assign(a, k));
      PlacedLink(u.Assign(a, k), k, a);
    } else {
      PlacedSame(st, st.Assign(a, k));
    }
    MoveRest(st, k, a);
  }

  lemma MoveRest(st: State, k: int, a: int)
    requires st.Ok() && a in st.resident && k in st.chains && k != -1
    ensures var m := st.Move(k, a); m.Stamped() && m.Assigned() && m.Known() && m.resident == st.resident
  {
  }

  lemma HateOk(st: State, a: int)
    requires st.Ok() && a in st.resident
    ensures st.Hate(a).Ok() && st.Hate(a).resident == st.resident
  {
    if st.resides[a] != HATED {
      var u := st.Unlink(a);
      PlacedUnlink(st, a);
      PlacedSame(u, u.Assign(a, DEFAULT));
      PlacedLink(u.Assign(a, DEFAULT), HATED, a);
    }
    HateRest(st, a);
  }

  lemma HateRest(st: State, a: int)
    requires st.Ok() && a in st.resident
    ensures var m := st.Hate(a); m.Stamped() && m.Assigned() && m.Known() && m.resident == st.resident
  {
  }

  lemma CreateOk(st: State, k: int)
    requires st.Ok() && k !in st.chains && k != -1
    ensures st.Create(k).Ok()
  {
  }

  lemma UnchainPlaced(st: State, k: int)
    requires st.Placed() && k in st.chains
    ensures st.Unchain(k).Placed()
  {
  }

  function Constant(s: seq<int>, k: int): map<int, int> {
    map a | a in s :: k
  }

  lemma ConstantStep(m: map<int, int>, s: seq<int>, k: int)
    requires s != []
    ensures m[s[0] := k] + Constant(s[1..], k) == m + Constant(s, k)
  {
    assert s == [s[0]] + s[1..];
    assert forall a :: a in s <==> a == s[0] || a in s[1..];
  }

  /** Hating pages one by one reverses them onto the hated chain. */
  lemma {:induction false} HateAllIs(st: State, s: seq<int>)
    requires HATED in st.chains
    ensures st.HateAll(s) == st.(
      chains := st.chains[HATED := Reverse(s) + st.chains[HATED]],
      resides := st.resides + Constant(s, HATED),
      assignedTo := st.assignedTo + Constant(s, DEFAULT))
    decreases |s|
  {
    hide Constant;
    if s == [] {
      NoConstant();
      assert [] + st.chains[HATED] == st.chains[HATED];
    } else {
      var n := st.Assign(s[0], DEFAULT).Link(HATED, s[0]);
      HateAllIs(n, s[1..]);
      ConstantStep(st.resides, s, HATED);
      ConstantStep(st.assignedTo, s, DEFAULT);
      assert Reverse(s) + st.chains[HATED] == Reverse(s[1..]) + ([s[0]] + st.chains[HATED]);
    }
  }

  lemma NoConstant()
    ensures forall m: map<int, int>, k :: m + Constant([], k) == m
  {
  }

  lemma {:induction false} HateAllPlaced(st: State, s: seq<int>)
    requires st.Placed() && HATED in st.chains && Distinct(s) && forall i :: 0 <= i < |s| ==> s[i] !in st.resides
    ensures st.HateAll(s).Placed()
    decreases |s|
  {
    if s != [] {
      var m := st.Assign(s[0], DEFAULT);
      PlacedSame(st, m);
      PlacedLink(m, HATED, s[0]);
      HateAllPlaced(m.Link(HATED, s[0]), s[1..]);
    }
  }

  lemma BreakOk(st: State, k: int)
    requires st.Ok() && k in st.chains && !IsSystem(k)
    ensures st.Break(k).Ok() && st.Break(k).resident == st.resident && st.Break(k).chains.Keys == st.chains.Keys
    ensures st.Break(k).chains[k] == [] && st.Break(k).assignedTo.Keys == st.assignedTo.Keys
    ensures forall a :: a in st.assignedTo ==>
      if a in st.resident then st.Break(k).assignedTo[a] != k else st.Break(k).assignedTo[a] == st.assignedTo[a]
  {
    var u, s := st.Unchain(k), st.chains[k];
    UnchainPlaced(st, k);
    HateAllPlaced(u, s);
    BreakRest(st, k);
  }

  /** The maps after breaking, page by page. */
  lemma BreakMaps(st: State, k: int)
    requires st.Ok() && k in st.chains && !IsSystem(k)
    ensures var b, s := st.Break(k), st.chains[k];
      && b.chains == st.chains[k := []][HATED := Reverse(s) + st.chains[HATED]]
      && b.clock == st.clock && b.resident == st.resident && b.stamp == st.stamp && b.misses == st.misses
      && b.resides.Keys == st.resides.Keys && b.assignedTo.Keys == st.assignedTo.Keys
      && (forall a :: a in st.resides ==> b.resides[a] == if st.resides[a] == k then HATED else st.resides[a])
      && (forall a :: a in st.assignedTo ==>
        b.assignedTo[a] == if a in st.resides && st.resides[a] == k then DEFAULT else st.assignedTo[a])
  {
    var s := st.chains[k];
    HateAllIs(st.Unchain(k), s);
    assert forall a :: a in s <==> a in st.resides && st.resides[a] == k;
    assert st.Unchain(k).chains[HATED] == st.chains[HATED];
    assert (st.resides - (set a | a in s) + Constant(s, HATED)).Keys == st.resides.Keys;
    assert (st.assignedTo + Constant(s, DEFAULT)).Keys == st.assignedTo.Keys;
  }

  lemma BreakRest(st: State, k: int)
    requires st.Ok() && k in st.chains && !IsSystem(k)
    ensures var b := st.Break(k);
      && b.Stamped() && b.Assigned() && b.Known() && b.chains[k] == [] && b.assignedTo.Keys == st.assignedTo.Keys
      && b.chains.Keys == st.chains.Keys && b.resident == st.resident
      && forall a :: a in st.assignedTo ==>
        if a in st.resident then b.assignedTo[a] != k else b.assignedTo[a] == st.assignedTo[a]
  {
    hide Constant, Reverse, State.HateAll, State.Unchain, State.Break, Distinct;
    BreakMaps(st, k);
  }

  lemma ReleaseOk(st: State, k: int)
    requires st.Ok() && k in st.chains && !IsSystem(k)
    ensures st.Release(k).Ok() && st.Release(k).resident == st.resident
  {
    BreakOk(st, k);
    RemoveOk(st.Break(k), k);
  }

  /** Releasing chain k takes the home of exactly those pages that are assigned to it but not resident. The
      next access to such a page looks for a chain that is gone. */
  lemma ReleaseStrandsIff(st: State, k: int, a: int)
    requires st.Ok() && k in st.chains && !IsSystem(k)
    ensures st.Release(k).Home(a) in st.Release(k).chains <==>
      st.Home(a) in st.chains && !(a in st.assignedTo && a !in st.resident && st.assignedTo[a] == k)
  {
    BreakOk(st, k);
  }

  /** No other operation takes the home of any page. */
  lemma HomesKept(st: State, a: int, b: int, k: int)
    requires st.Ok() && st.Home(b) in st.chains
    ensures a in st.resident ==> st.Hit(a).Home(b) in st.Hit(a).chains && st.Evict(a).Home(b) in st.Evict(a).chains
    ensures a !in st.resident && st.Home(a) in st.chains ==> st.Miss(a).Home(b) in st.Miss(a).chains
    ensures a in st.resident ==> st.Hate(a).Home(b) in st.Hate(a).chains
    ensures a in st.resident && k in st.chains && !IsSystem(k) ==> st.Move(k, a).Home(b) in st.Move(k, a).chains
    ensures k in st.chains && !IsSystem(k) ==> st.Break(k).Home(b) in st.Break(k).chains
    ensures st.Create(k).Home(b) in st.Create(k).chains
  {
    hide State.Stamped, State.Assigned, State.HateAll, State.Break, Distinct;
    if k in st.chains && !IsSystem(k) {
      HomesKeptByBreak(st, b, k);
    }
  }

  lemma HomesKeptByBreak(st: State, b: int, k: int)
    requires st.Ok() && st.Home(b) in st.chains && k in st.chains && !IsSystem(k)
    ensures st.Break(k).Home(b) in st.Break(k).chains
  {
    hide State.Placed, State.Stamped, State.Break;
    BreakOk(st, k);
  }

  /** A manager of one frame: page 7 was linked to chain 3 and evicted for page 8. Releasing chain 3 leaves
      page 7 without a chain. */
  lemma ReleaseStrands()
    ensures var st := State(4, {8}, map[HATED := [], SPILLOVER := [], DEFAULT := [8], 3 := []], map[8 := DEFAULT],
                            map[7 := 2, 8 := 4], map[7 := 3, 8 := -1], map[7 := 1, 8 := 1]);
      st.Ok() && st.Home(7) in st.chains && st.Release(3).Ok() && st.Release(3).Home(7) !in st.Release(3).chains
  {
    var st := State(4, {8}, map[HATED := [], SPILLOVER := [], DEFAULT := [8], 3 := []], map[8 := DEFAULT],
                    map[7 := 2, 8 := 4], map[7 := 3, 8 := -1], map[7 := 1, 8 := 1]);
    assert st.Placed() && st.Stamped() && st.Assigned() && st.Known();
    ReleaseOk(st, 3);
    ReleaseStrandsIff(st, 3, 7);
  }

  lemma RemoveOk(b: State, k: int)
    requires b.Ok() && k in b.chains && !IsSystem(k) && b.chains[k] == []
    requires forall a :: a in b.assignedTo && a in b.resident ==> b.assignedTo[a] != k
    ensures b.(chains := b.chains - {k}).Ok()
  {
  }

  /** The lengths of some of the chains, added up. */
  ghost function Sizes(chains: map<int, seq<int>>, ks: set<int>): nat
    requires ks <= chains.Keys
  {
    if exists k :: k in ks then
      var k :| k in ks;
      |chains[k]| + Sizes(chains, ks - {k})
    else 0
  }

  lemma {:induction false} DistinctCount(s: seq<int>)
    requires Distinct(s)
    ensures |set a | a in s| == |s|
  {
    if s != [] {
      DistinctCount(s[1..]);
      assert (set a | a in s) == {s[0]} + (set a | a in s[1..]);
    }
  }

  ghost function Within(resides: map<int, int>, ks: set<int>): set<int> {
    set a | a in resides && resides[a] in ks
  }

  lemma WithinSplit(st: State, ks: set<int>, k: int)
    requires st.Placed() && k in ks && k in st.chains
    ensures |Within(st.resides, ks)| == |st.chains[k]| + |Within(st.resides, ks - {k})|
  {
    var s := st.chains[k];
    assert Distinct(s);
    DistinctCount(s);
    var here := set a | a in s;
    var rest := Within(st.resides, ks - {k});
    forall a
      ensures a in Within(st.resides, ks) <==> a in here + rest
      ensures a in here ==> a !in rest
    {
      assert a in s <==> a in st.resides && st.resides[a] == k;
    }
    assert Within(st.resides, ks) == here + rest && here !! rest;
  }

  lemma {:induction false} SizesOfChains(st: State, ks: set<int>)
    requires st.Placed() && ks <= st.chains.Keys
    ensures Sizes(st.chains, ks) == |Within(st.resides, ks)|
  {
    if exists k :: k in ks {
      var k :| k in ks && Sizes(st.chains, ks) == |st.chains[k]| + Sizes(st.chains, ks - {k});
      SizesOfChains(st, ks - {k});
      WithinSplit(st, ks, k);
    } else {
      assert Within(st.resides, ks) == {};
    }
  }

  /** The sizes of the chains add up to the number of resident pages, and each of those is in one of
      the chains. */
  lemma ChainsPartition(st: State)
    requires st.Ok()
    ensures Sizes(st.chains, st.chains.Keys) == |st.resident|
    ensures forall a :: a in st.resident <==> exists k :: k in st.chains && a in st.chains[k]
    ensures forall a, k, l :: k in st.chains && l in st.chains && a in st.chains[k] && a in st.chains[l] ==> k == l
  {
    SizesOfChains(st, st.chains.Keys);
    forall a
      ensures a in Within(st.resides, st.chains.Keys) <==> a in st.resident
      ensures a in st.resident ==> exists k :: k in st.chains && a in st.chains[k]
    {
      if a in st.resident {
        var k := st.resides[a];
        assert k in st.chains && a in st.chains[k];
      }
    }
    assert Within(st.resides, st.chains.Keys) == st.resident;
  }
}
