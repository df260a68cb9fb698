/** When the victim that evict() chooses by the cached timestamps is the one that ought to be evicted. */
module VictimChoice {
  import opened Paging
  import opened Representatives
  import opened Sequences

  /** What competes for eviction: a page of a system chain for itself, a page of a user chain with its chain. */
  ghost predicate SameUnit(st: State, u: int, w: int)
    requires u in st.resides && w in st.resides
  {
    u == w || (st.resides[u] == st.resides[w] && !IsSystem(st.resides[u]))
  }

  ghost predicate LeastRecent(st: State, u: int)
    requires st.Ok()
  {
    u in st.resides && forall x :: x in st.resides ==> Priority(st, u) <= Priority(st, x)
  }

  /** Some unit's cached timestamp is not later than that of the least recently used unit. */
  ghost predicate Misled(st: State, mk: Marks)
    requires st.Ok() && mk.Keys == st.chains.Keys
  {
    exists u, w ::
      LeastRecent(st, u) && w in st.resides && !SameUnit(st, u, w) && Cached(st, mk, w) <= Cached(st, mk, u)
  }

  lemma {:induction false} SmallestOf(m: map<int, int>) returns (a: int)
    requires exists x :: x in m
    ensures a in m && forall x :: x in m ==> m[a] <= m[x]
    decreases |m|
  {
    a :| a in m;
    var rest := m - {a};
    if exists x :: x in rest {
      var b := SmallestOf(rest);
      a := if m[a] <= rest[b] then a else b;
      assert forall x :: x in m ==> x in rest || m[x] == m[a] || m[a] <= m[x];
    } else {
      forall x | x in m
        ensures x == a
      {
        assert x != a ==> x in rest;
      }
    }
  }

  /** The page of a non-empty chain that was used first. */
  lemma {:induction false} OldestOf(st: State, s: seq<int>) returns (v: int)
    requires s != []
    ensures Oldest(st, v, s)
    decreases |s|
  {
    v := s[0];
    if |s| > 1 {
      var w := OldestOf(st, s[1..]);
      v := if StampAt(st.stamp, v) <= StampAt(st.stamp, w) then v else w;
    }
  }

  lemma LeastRecentExists(st: State, x: int) returns (u: int)
    requires st.Ok() && x in st.resides
    ensures LeastRecent(st, u)
  {
    var m := map a | a in st.resides :: Priority(st, a);
    assert x in m;
    u := SmallestOf(m);
    assert forall a :: a in st.resides ==> m[a] == Priority(st, a);
  }

  lemma SmallestCached(st: State, mk: Marks, x: int) returns (u: int)
    requires st.Ok() && mk.Keys == st.chains.Keys && x in st.resides
    ensures u in st.resides && forall a :: a in st.resides ==> Cached(st, mk, u) <= Cached(st, mk, a)
  {
    var m := map a | a in st.resides :: Cached(st, mk, a);
    assert x in m;
    u := SmallestOf(m);
    assert forall a :: a in st.resides ==> m[a] == Cached(st, mk, a);
  }

  /** The priority of a page is the stamp of some page of its unit. */
  lemma PriorityOwner(st: State, a: int) returns (b: int)
    requires st.Ok() && a in st.resides
    ensures b in st.resides && SameUnit(st, a, b) && b in st.stamp && Priority(st, a) == st.stamp[b]
  {
    hide Distinct;
    var k := st.resides[a];
    ResidentFacts(st, a);
    if IsSystem(k) {
      b := a;
    } else {
      var s := st.chains[k];
      var i :| 0 <= i < |s| && StampAt(st.stamp, s[i]) == Latest(st.stamp, s);
      b := s[i];
      LinkedFacts(st, k, b);
    }
  }

  /** No two units have the same priority. */
  lemma DistinctPriorities(st: State, u: int, w: int)
    requires st.Ok() && u in st.resides && w in st.resides && !SameUnit(st, u, w)
    ensures Priority(st, u) != Priority(st, w)
  {
    var a := PriorityOwner(st, u);
    var b := PriorityOwner(st, w);
    assert a != b;
  }

  lemma UnitFacts(st: State, mk: Marks, u: int, w: int)
    requires st.Ok() && mk.Keys == st.chains.Keys && u in st.resides && w in st.resides && SameUnit(st, u, w)
    ensures Priority(st, u) == Priority(st, w) && Cached(st, mk, u) == Cached(st, mk, w)
  {
  }

  /** A page that evict() may choose: one of the unit of w, if no cached timestamp is earlier than w's. */
  lemma Choice(st: State, mk: Marks, w: int) returns (v: int)
    requires st.Ok() && mk.Keys == st.chains.Keys && st.chains[HATED] == [] && st.chains[SPILLOVER] == []
    requires w in st.resides && forall a :: a in st.resides ==> Cached(st, mk, w) <= Cached(st, mk, a)
    ensures Chosen(st, mk, v) && v in st.resides && SameUnit(st, w, v)
  {
    hide Distinct;
    var k := st.resides[w];
    ResidentFacts(st, w);
    if IsSystem(k) {
      v := w;
      forall x | x in st.chains[k]
        ensures StampAt(st.stamp, v) <= StampAt(st.stamp, x)
      {
        LinkedFacts(st, k, x);
        assert Cached(st, mk, x) == StampAt(st.stamp, x);
      }
    } else {
      v := OldestOf(st, st.chains[k]);
      LinkedFacts(st, k, v);
      UnitFacts(st, mk, w, v);
    }
  }

  lemma MisledMischooses(st: State, mk: Marks) returns (v: int)
    requires st.Ok() && mk.Keys == st.chains.Keys && st.chains[HATED] == [] && st.chains[SPILLOVER] == []
    requires Misled(st, mk)
    ensures Chosen(st, mk, v) && !Optimal(st, v)
  {
    hide Distinct, Cached, Priority, State.Stamped, State.Assigned;
    var u, w :| LeastRecent(st, u) && w in st.resides && !SameUnit(st, u, w) && Cached(st, mk, w) <= Cached(st, mk, u);
    var m := SmallestCached(st, mk, u);
    if SameUnit(st, u, m) {
      UnitFacts(st, mk, u, m);
      m := w;
    }
    v := Choice(st, mk, m);
    assert !SameUnit(st, u, v);
    DistinctPriorities(st, u, v);
  }

  /** Every page that evict() may choose is the right one if and only if hated or spilled pages decide, or
      the cached timestamps do not mislead. */
  lemma OptimalIff(st: State, mk: Marks)
    requires st.Ok() && mk.Keys == st.chains.Keys
    ensures (forall v :: Chosen(st, mk, v) ==> Optimal(st, v)) <==>
      st.chains[HATED] != [] || st.chains[SPILLOVER] != [] || !Misled(st, mk)
  {
    hide Distinct, Cached, Priority, State.Stamped, State.Assigned;
    if st.chains[HATED] == [] && st.chains[SPILLOVER] == [] {
      if Misled(st, mk) {
        var v := MisledMischooses(st, mk);
      } else {
        forall v | Chosen(st, mk, v)
          ensures Optimal(st, v)
        {
          var u := LeastRecentExists(st, v);
          assert SameUnit(st, u, v);
          UnitFacts(st, mk, u, v);
        }
      }
    }
  }
}
