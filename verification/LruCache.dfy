/** With nothing but access() the memory manager is a least-recently-used cache. */
module LruCache {
  import opened MemoryManager
  import opened Options
  import opened Paging
  import opened Representatives
  import opened Sequences

  /** The textbook cache: a list of addresses, the most recently used one first. */
  function Use(size: nat, q: seq<int>, a: int): seq<int> {
    if a in q then [a] + Minus(q, a)
    else if |q| >= size && q != [] then [a] + q[..|q| - 1]
    else [a] + q
  }

  function UseAll(size: nat, trace: seq<int>): seq<int> {
    if trace == [] then [] else Use(size, UseAll(size, trace[..|trace| - 1]), trace[|trace| - 1])
  }

  /** All pages are in the standard chain and will return to it. */
  ghost predicate Plain(st: State) {
    && st.Ok() && st.chains.Keys == {HATED, SPILLOVER, DEFAULT} && st.chains[HATED] == [] && st.chains[SPILLOVER] == []
    && forall a :: a in st.assignedTo ==> st.assignedTo[a] == -1
  }

  /** q lists the resident pages by their last use. */
  ghost predicate Recency(st: State, q: seq<int>) {
    && Distinct(q) && (forall a :: a in q <==> a in st.resident)
    && forall i, j :: 0 <= i < j < |q| ==> StampAt(st.stamp, q[i]) > StampAt(st.stamp, q[j])
  }

  lemma HitRefines(st: State, q: seq<int>, a: int)
    requires Plain(st) && Recency(st, q) && a in st.resident
    ensures Plain(st.Hit(a)) && Recency(st.Hit(a), [a] + Minus(q, a))
  {
    hide Minus, Distinct, State.Placed, State.Assigned;
    HitOk(st, a);
    MinusElements(q, a);
    MinusOrdered(st, q, a);
    PutFirst(st, st.Hit(a), Minus(q, a), a);
  }

  lemma MinusOrdered(st: State, q: seq<int>, a: int)
    requires Recency(st, q) && a in q
    ensures var r := Minus(q, a); forall i, j :: 0 <= i < j < |r| ==> StampAt(st.stamp, r[i]) > StampAt(st.stamp, r[j])
  {
    hide Minus;
    var i :| 0 <= i < |q| && q[i] == a;
    MinusIsCut(q, i);
  }

  /** A page used after all those of r comes before them. */
  lemma PutFirst(st: State, st': State, r: seq<int>, a: int)
    requires Distinct(r) && a !in r && st'.clock > st.clock && a in st'.stamp && st'.stamp[a] == st'.clock
    requires forall b :: b in r ==> b in st.stamp && b in st'.stamp && st'.stamp[b] == st.stamp[b] <= st.clock
    requires forall i, j :: 0 <= i < j < |r| ==> StampAt(st.stamp, r[i]) > StampAt(st.stamp, r[j])
    requires forall b :: b in st'.resident <==> b == a || b in r
    ensures Recency(st', [a] + r)
  {
    var q := [a] + r;
    forall i, j | 0 <= i < j < |q|
      ensures StampAt(st'.stamp, q[i]) > StampAt(st'.stamp, q[j]) && q[i] != q[j]
    {
      assert q[j] == r[j - 1] && r[j - 1] in r;
      assert i > 0 ==> q[i] == r[i - 1] && r[i - 1] in r;
    }
  }

  lemma MissRefines(st: State, q: seq<int>, a: int)
    requires Plain(st) && Recency(st, q) && a !in st.resident
    ensures st.Home(a) in st.chains && Plain(st.Miss(a)) && Recency(st.Miss(a), [a] + q)
  {
    MissOk(st, a);
    PutFirst(st, st.Miss(a), q, a);
  }

  lemma LastIsChosen(st: State, mk: Marks, q: seq<int>, u: int)
    requires Plain(st) && Recency(st, q) && mk.Keys == st.chains.Keys && Chosen(st, mk, u) && u in st.resident
    ensures q != [] && u == q[|q| - 1]
  {
    hide State.Ok, Distinct;
    var last := q[|q| - 1];
    var i :| 0 <= i < |q| && q[i] == u;
    assert last in q && last in st.resident && u in q;
    AllStandard(st, u);
    AllStandard(st, last);
    assert Cached(st, mk, u) <= Cached(st, mk, last);
    assert i == |q| - 1;
  }

  lemma AllButLast(q: seq<int>)
    requires Distinct(q) && q != []
    ensures var r := q[..|q| - 1]; Distinct(r) && forall b :: b in r <==> b in q && b != q[|q| - 1]
  {
    var r := q[..|q| - 1];
    forall b | b in q && b != q[|q| - 1]
      ensures b in r
    {
      var j :| 0 <= j < |q| && q[j] == b;
      assert r[j] == b;
    }
  }

  /** The page that evict() chooses is the last of the list. */
  lemma EvictRefines(st: State, mk: Marks, q: seq<int>, u: int)
    requires Plain(st) && Recency(st, q) && mk.Keys == st.chains.Keys && Chosen(st, mk, u) && u in st.resident
    ensures q != [] && u == q[|q| - 1] && st.resides[u] in st.chains && Plain(st.Evict(u)) && Recency(st.Evict(u), q[..|q| - 1])
  {
    hide State.Ok, Distinct, Chosen;
    LastIsChosen(st, mk, q, u);
    AllStandard(st, u);
    EvictOk(st, u);
    AllButLast(q);
  }

  lemma AllStandard(st: State, a: int)
    requires Plain(st) && a in st.resident
    ensures a in st.resides && st.resides[a] == DEFAULT && IsSystem(DEFAULT)
  {
    ResidentFacts(st, a);
  }

  /** One access: the manager and the textbook cache stay in step. */
  lemma AccessRefines(st: State, mk: Marks, victim: Option<int>, st': State, a: int, size: nat, q: seq<int>)
    requires Plain(st) && Recency(st, q) && mk.Keys == st.chains.Keys && size > 0 && |st.resident| <= size
    requires AfterAccess(st, mk, victim, st', a, size)
    ensures Plain(st') && Recency(st', Use(size, q, a))
  {
    ListLength(st, q);
    hide Plain, Recency, Chosen;
    if a in st.resident {
      HitRefines(st, q, a);
    } else {
      var s :| Evicted(st, mk, victim, s) && s.Home(a) in s.chains && st' == s.Miss(a);
      if victim.Some? {
        EvictRefines(st, mk, q, victim.value);
        MissRefines(s, q[..|q| - 1], a);
      } else {
        MissRefines(st, q, a);
      }
    }
  }

  lemma ListLength(st: State, q: seq<int>)
    requires Recency(st, q)
    ensures |q| == |st.resident| && forall a :: a in q <==> a in st.resident
  {
    DistinctCount(q);
    var elements := set a | a in q;
    assert forall a :: a in elements <==> a in st.resident;
    assert elements == st.resident;
  }

  /** On a new manager, after any trace of accesses, the resident pages are those of the textbook cache
      of the same size. Every prefix of a trace is a trace, so this holds after every single access. */
  method AccessAll(m: HierarchicalMemoryManager, trace: seq<int>)
    requires m.Valid() && m.size > 0 && m.view.st == Empty(m.view.st.clock)
    modifies m`view, m`swap, m.memory, m.memory.pages, m.pageTable, m.clock, m.view.co.Values, m.view.ps.Values
    ensures m.Valid() && forall a :: a in m.view.st.resident <==> a in UseAll(m.size, trace)
    ensures Recency(m.view.st, UseAll(m.size, trace))
  {
    hide HierarchicalMemoryManager.Valid, Plain, Recency, AfterAccess, AccessedMarks, UseAll, Use, Empty, MarksOk, State.Ok, Unbroken;
    StartsPlain(m.view.st.clock, m.size, trace[..0]);
    for i := 0 to |trace|
      invariant m.Valid() && Plain(m.view.st) && Recency(m.view.st, UseAll(m.size, trace[..i]))
      invariant m.view.co == old(m.view.co) && fresh(m.view.ps.Values - old(m.view.ps.Values))
    {
      ghost var v := m.view;
      m.Bounded();
      PlainHome(v.st, trace[i]);
      var victim := m.Access(trace[i]);
      AccessRefines(v.st, v.mk, victim, m.view.st, trace[i], m.size, UseAll(m.size, trace[..i]));
      UseNext(m.size, trace, i);
    }
    assert trace[..|trace|] == trace;
    ListLength(m.view.st, UseAll(m.size, trace));
  }

  lemma PlainHome(st: State, a: int)
    requires Plain(st)
    ensures st.Home(a) in st.chains
  {
  }

  lemma StartsPlain(clock: nat, size: nat, trace: seq<int>)
    ensures trace == [] ==> Plain(Empty(clock)) && Recency(Empty(clock), UseAll(size, trace))
  {
  }

  lemma UseNext(size: nat, trace: seq<int>, i: nat)
    requires i < |trace|
    ensures UseAll(size, trace[..i + 1]) == Use(size, UseAll(size, trace[..i]), trace[i])
  {
    assert trace[..i + 1][..i] == trace[..i];
  }
}
