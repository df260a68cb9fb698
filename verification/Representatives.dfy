/** The timestamp and representative that a memory chain caches, and what they say about the chain's
    members (MemoryChain.timestamp() and representative(page)). */
module Representatives {
  import opened Options
  import opened Paging
  import opened Sequences

  datatype Mark = Mark(stamp: int, rep: Option<int>)

  type Marks = map<int, Mark>

  /** representative(page) for a page a of the chain. */
  function Represent(m: Mark, stamp: int, a: int): Mark {
    if stamp > m.stamp then Mark(stamp, Some(a)) else m
  }

  /** unlink(page) on the chain. */
  function Forget(m: Mark, a: int): Mark {
    if m.rep == Some(a) then m.(rep := None) else m
  }

  /** The cached timestamp of a user chain bounds its members'; the representative has not become
      older since, and it is the only page with the cached timestamp. */
  ghost predicate MarksOk(st: State, mk: Marks) {
    && mk.Keys == st.chains.Keys
    && (forall k :: k in mk ==> mk[k].stamp <= st.clock && RepOk(st, mk[k]))
    && (forall k :: k in mk && !IsSystem(k) ==> Bounded(st, mk[k].stamp, st.chains[k]))
  }

  ghost predicate RepOk(st: State, m: Mark) {
    m.rep.Some? ==>
      && m.rep.value in st.stamp && m.stamp <= st.stamp[m.rep.value]
      && forall x :: x in st.stamp && st.stamp[x] == m.stamp ==> x == m.rep.value
  }

  ghost predicate Bounded(st: State, stamp: int, s: seq<int>) {
    forall a :: a in s ==> a in st.stamp && st.stamp[a] <= stamp
  }

  /** No user chain has a representative that left it; breaking a chain is what can make one. */
  ghost predicate Unbroken(st: State, mk: Marks) {
    forall k :: k in mk && k in st.chains && !IsSystem(k) && mk[k].rep.Some? ==> mk[k].rep.value in st.chains[k]
  }

  lemma MarksUnlink(st: State, mk: Marks, a: int)
    requires MarksOk(st, mk) && st.Placed() && a in st.resides
    ensures MarksOk(st.Unlink(a), mk[st.resides[a] := Forget(mk[st.resides[a]], a)])
    ensures Unbroken(st, mk) ==> Unbroken(st.Unlink(a), mk[st.resides[a] := Forget(mk[st.resides[a]], a)])
  {
    hide Minus, Distinct;
    var k := st.resides[a];
    assert k in st.chains && Distinct(st.chains[k]);
    MinusElements(st.chains[k], a);
    var mk' := mk[k := Forget(mk[k], a)];
    if Unbroken(st, mk) {
      forall l | l in mk' && l in st.chains && !IsSystem(l) && mk'[l].rep.Some?
        ensures mk'[l].rep.value in st.Unlink(a).chains[l]
      {
        assert mk[l].rep == mk'[l].rep && mk[l].rep.value in st.chains[l];
        if l == k {
          assert mk[l].rep.value != a && st.Unlink(a).chains[k] == Minus(st.chains[k], a);
        }
      }
    }
  }

  lemma MarksLink(st: State, mk: Marks, k: int, a: int)
    requires MarksOk(st, mk) && k in st.chains && a in st.stamp && st.Stamped()
    ensures MarksOk(st.Link(k, a), mk[k := Represent(mk[k], st.stamp[a], a)])
    ensures Unbroken(st, mk) ==> Unbroken(st.Link(k, a), mk[k := Represent(mk[k], st.stamp[a], a)])
  {
    assert forall b :: b in [a] + st.chains[k] <==> b == a || b in st.chains[k];
  }

  /** The mark of a's chain after an access: the chains of the system are not asked to update theirs. */
  function Accessed(st: State, mk: Marks, a: int, stamp: int): Marks
    requires a in st.resides && st.resides[a] in mk
  {
    var k := st.resides[a];
    if IsSystem(k) then mk else mk[k := Represent(mk[k], stamp, a)]
  }

  lemma MarksHit(st: State, mk: Marks, a: int)
    requires MarksOk(st, mk) && st.Ok() && a in st.resident
    ensures MarksOk(st.Hit(a), Accessed(st, mk, a, st.clock + 1))
    ensures Unbroken(st, mk) ==> Unbroken(st.Hit(a), Accessed(st, mk, a, st.clock + 1))
  {
    hide Distinct;
    var h, mk' := st.Hit(a), Accessed(st, mk, a, st.clock + 1);
    forall k | k in mk'
      ensures mk'[k].stamp <= h.clock && RepOk(h, mk'[k])
      ensures !IsSystem(k) ==> Bounded(h, mk'[k].stamp, h.chains[k])
    {
      assert RepOk(st, mk[k]);
      if !IsSystem(k) {
        assert Bounded(st, mk[k].stamp, st.chains[k]);
        assert a in st.chains[k] ==> st.resides[a] == k;
      }
    }
  }

  lemma MarksAdmit(st: State, mk: Marks, a: int)
    requires MarksOk(st, mk) && st.Ok() && a !in st.resident
    ensures MarksOk(st.Admit(a), mk) && st.Admit(a).Stamped()
    ensures Unbroken(st, mk) ==> Unbroken(st.Admit(a), mk)
  {
    hide Distinct;
    var h := st.Admit(a);
    forall k | k in mk
      ensures RepOk(h, mk[k])
      ensures !IsSystem(k) ==> Bounded(h, mk[k].stamp, h.chains[k])
    {
      assert RepOk(st, mk[k]);
      if !IsSystem(k) {
        assert Bounded(st, mk[k].stamp, st.chains[k]);
        assert a !in st.chains[k];
      }
    }
  }

  /** The timestamp that timestamp() returns for a chain. */
  function Effective(st: State, m: Mark, s: seq<int>): int
  {
    if m.rep.Some? then m.stamp else Latest(st.stamp, s)
  }

  /** timestamp() returns the latest use of the members exactly if the representative is missing or
      still a member: a chain that lost its representative by being broken keeps its old timestamp. */
  lemma EffectiveIsLatestIff(st: State, mk: Marks, k: int)
    requires MarksOk(st, mk) && st.Ok() && k in mk && !IsSystem(k) && st.chains[k] != []
    ensures Effective(st, mk[k], st.chains[k]) >= Latest(st.stamp, st.chains[k])
    ensures Effective(st, mk[k], st.chains[k]) == Latest(st.stamp, st.chains[k])
      <==> mk[k].rep.None? || mk[k].rep.value in st.chains[k]
  {
    hide Distinct;
    var m, s := mk[k], st.chains[k];
    var l := Latest(st.stamp, s);
    assert RepOk(st, m) && Bounded(st, m.stamp, s);
    var i :| 0 <= i < |s| && StampAt(st.stamp, s[i]) == l;
    assert s[i] in s && st.stamp[s[i]] == l <= m.stamp;
    if m.rep.Some? && m.rep.value in s {
      var j :| 0 <= j < |s| && s[j] == m.rep.value;
      assert st.stamp[s[j]] == StampAt(st.stamp, s[j]) <= l;
    }
  }

  /** timestamp() fills in a missing representative without changing what it returns. */
  ghost predicate Refreshed(st: State, m: Mark, m': Mark, s: seq<int>)
  {
    if m.rep.Some? then m' == m
    else m'.rep.Some? && m'.rep.value in s && m'.rep.value in st.stamp && m'.stamp == st.stamp[m'.rep.value] == Latest(st.stamp, s)
  }

  /** The user chains among ks that are not empty have been asked for their timestamp, and no others. */
  ghost predicate AskedMarks(st: State, mk: Marks, mk': Marks, ks: set<int>) {
    && mk'.Keys == mk.Keys
    && forall k :: k in mk ==>
         if k in ks && !IsSystem(k) && k in st.chains && st.chains[k] != [] then Refreshed(st, mk[k], mk'[k], st.chains[k])
         else mk'[k] == mk[k]
  }

  lemma AskedNext(st: State, mk: Marks, mk1: Marks, mk2: Marks, ks: set<int>, k: int)
    requires AskedMarks(st, mk, mk1, ks) && k in mk && k in mk2 && k !in ks && mk2 == mk1[k := mk2[k]]
    requires !IsSystem(k) && k in st.chains
    requires if st.chains[k] != [] then Refreshed(st, mk1[k], mk2[k], st.chains[k]) else mk2[k] == mk1[k]
    ensures AskedMarks(st, mk, mk2, ks + {k})
  {
    hide Refreshed;
  }

  /** The chains that evict() asks: none while there are hated or spilled pages. */
  function Contestants(st: State): set<int>
    requires HATED in st.chains && SPILLOVER in st.chains
  {
    if st.chains[HATED] != [] || st.chains[SPILLOVER] != [] then {} else st.chains.Keys - {HATED, SPILLOVER}
  }

  /** The marks after evict() took page a. */
  ghost predicate EvictedMarks(st: State, mk: Marks, a: int, mk': Marks) {
    && a in st.resides && HATED in st.chains && SPILLOVER in st.chains
    && exists mk1 ::
         && AskedMarks(st, mk, mk1, Contestants(st)) && st.resides[a] in mk1
         && mk' == mk1[st.resides[a] := Forget(mk1[st.resides[a]], a)]
  }

  ghost predicate RoomMarks(st: State, mk: Marks, victim: Option<int>, mk': Marks) {
    match victim
    case None => mk' == mk
    case Some(u) => EvictedMarks(st, mk, u, mk')
  }

  /** The marks after access(a), which evicted the victim if there is one. */
  ghost predicate AccessedMarks(st: State, mk: Marks, victim: Option<int>, a: int, mk': Marks) {
    if a in st.resident then a in st.resides && st.resides[a] in mk && mk' == Accessed(st, mk, a, st.clock + 1)
    else
      var h := st.Home(a);
      exists mk1 :: RoomMarks(st, mk, victim, mk1) && h in mk1 && mk' == mk1[h := Represent(mk1[h], st.clock + 2, a)]
  }

  lemma MarksRefresh(st: State, mk: Marks, k: int, m': Mark)
    requires MarksOk(st, mk) && st.Ok() && k in mk
    requires Refreshed(st, mk[k], m', st.chains[k])
    ensures MarksOk(st, mk[k := m']) && (Unbroken(st, mk) ==> Unbroken(st, mk[k := m']))
    ensures Effective(st, m', st.chains[k]) == Effective(st, mk[k], st.chains[k])
  {
    hide Distinct;
    var s, mk' := st.chains[k], mk[k := m'];
    forall l | l in mk'
      ensures mk'[l].stamp <= st.clock && RepOk(st, mk'[l])
      ensures !IsSystem(l) ==> Bounded(st, mk'[l].stamp, st.chains[l])
    {
      assert RepOk(st, mk[l]) && (!IsSystem(l) ==> Bounded(st, mk[l].stamp, st.chains[l]));
      if l == k && m' != mk[k] {
        assert m'.rep.value in st.stamp && st.stamp[m'.rep.value] == m'.stamp;
        if !IsSystem(k) {
          LatestBounds(st, s, mk[k].stamp);
        }
      }
    }
  }

  lemma LatestBounds(st: State, s: seq<int>, m: int)
    requires Bounded(st, m, s)
    ensures Bounded(st, Latest(st.stamp, s), s)
  {
    forall a | a in s
      ensures a in st.stamp && st.stamp[a] <= Latest(st.stamp, s)
    {
      var i :| 0 <= i < |s| && s[i] == a;
      assert StampAt(st.stamp, s[i]) == st.stamp[a];
    }
  }

  lemma MarksCreate(st: State, mk: Marks, k: int)
    requires MarksOk(st, mk) && k !in st.chains
    ensures MarksOk(st.Create(k), mk[k := Mark(0, None)])
    ensures Unbroken(st, mk) ==> Unbroken(st.Create(k), mk[k := Mark(0, None)])
  {
  }

  /** When a page was last used, as far as eviction is concerned: in a user chain the whole chain
      counts as used when its last used page was. */
  function Priority(st: State, a: int): int
    requires a in st.resides && st.resides[a] in st.chains
  {
    var k := st.resides[a];
    if IsSystem(k) then StampAt(st.stamp, a) else Latest(st.stamp, st.chains[k])
  }

  /** The same with the chain's cached timestamp. */
  function Cached(st: State, mk: Marks, a: int): int
    requires a in st.resides && st.resides[a] in st.chains && st.resides[a] in mk
  {
    var k := st.resides[a];
    if IsSystem(k) then StampAt(st.stamp, a) else Effective(st, mk[k], st.chains[k])
  }

  ghost predicate Oldest(st: State, v: int, s: seq<int>) {
    v in s && forall u :: u in s ==> StampAt(st.stamp, v) <= StampAt(st.stamp, u)
  }

  /** The page that evict() takes: the tail of the hated chain, or else the oldest spilled page, or
      else the oldest page of the chain with the smallest timestamp. */
  ghost predicate Chosen(st: State, mk: Marks, v: int)
    requires st.Ok() && mk.Keys == st.chains.Keys
  {
    if st.chains[HATED] != [] then v == st.chains[HATED][|st.chains[HATED]| - 1]
    else if st.chains[SPILLOVER] != [] then Oldest(st, v, st.chains[SPILLOVER])
    else
      && v in st.resides && Oldest(st, v, st.chains[st.resides[v]])
      && forall u :: u in st.resides ==> Cached(st, mk, v) <= Cached(st, mk, u)
  }

  /** The victim that ought to be taken. */
  ghost predicate Optimal(st: State, v: int)
    requires st.Ok()
  {
    if st.chains[HATED] != [] then v == st.chains[HATED][|st.chains[HATED]| - 1]
    else if st.chains[SPILLOVER] != [] then Oldest(st, v, st.chains[SPILLOVER])
    else
      && v in st.resides && Oldest(st, v, st.chains[st.resides[v]])
      && forall u :: u in st.resides ==> Priority(st, v) <= Priority(st, u)
  }

  /** Without broken chains every cached timestamp is true, so evict() is optimal. */
  lemma ChosenIsOptimal(st: State, mk: Marks, v: int)
    requires st.Ok() && MarksOk(st, mk) && Unbroken(st, mk) && Chosen(st, mk, v)
    ensures Optimal(st, v)
  {
    hide Distinct, Effective;
    forall u | u in st.resides
      ensures Cached(st, mk, u) == Priority(st, u)
    {
      var k := st.resides[u];
      if !IsSystem(k) {
        assert u in st.chains[k];
        EffectiveIsLatestIff(st, mk, k);
      }
    }
  }

  lemma ChosenIsResident(st: State, mk: Marks, v: int)
    requires st.Ok() && mk.Keys == st.chains.Keys && Chosen(st, mk, v)
    ensures v in st.resident && v in st.resides && st.resides[v] in st.chains
  {
    var s := st.chains[HATED];
    if s != [] {
      assert s[|s| - 1] in s;
    }
  }

  lemma LinkedFacts(st: State, k: int, a: int)
    requires st.Ok() && k in st.chains && a in st.chains[k]
    ensures a in st.resides && st.resides[a] == k && a in st.resident && a in st.stamp && 0 < st.stamp[a] <= st.clock
  {
  }

  lemma ResidentFacts(st: State, a: int)
    requires st.Ok() && a in st.resident
    ensures a in st.resides && st.resides[a] in st.chains && a in st.chains[st.resides[a]] && a in st.stamp
  {
  }

  /** The state of the search through the chains ks: best is the page to evict so far, and minimum the
      cached timestamp that speaks for it. */
  ghost predicate BestOf(st: State, mk: Marks, ks: set<int>, best: Option<int>, minimum: int)
    requires st.Ok() && mk.Keys == st.chains.Keys
  {
    match best
    case None => minimum == st.clock + 1 && forall k :: k in ks && k in st.chains ==> st.chains[k] == []
    case Some(a) =>
      && a in st.resides && st.resides[a] in ks && Oldest(st, a, st.chains[st.resides[a]])
      && Cached(st, mk, a) == minimum
      && forall u :: u in st.resides && st.resides[u] in ks ==> minimum <= Cached(st, mk, u)
  }

  /** The standard chain is searched page by page. */
  lemma BestDefault(st: State, mk: Marks, best: Option<int>, minimum: int)
    requires st.Ok() && mk.Keys == st.chains.Keys
    requires best.None? ==> minimum == st.clock + 1 && forall u :: u in st.chains[DEFAULT] ==> StampAt(st.stamp, u) >= minimum
    requires best.Some? ==> Oldest(st, best.value, st.chains[DEFAULT]) && StampAt(st.stamp, best.value) == minimum
    ensures BestOf(st, mk, {DEFAULT}, best, minimum)
  {
    hide Distinct, Effective;
    var s := st.chains[DEFAULT];
    if best.None? {
      if s != [] {
        LinkedFacts(st, DEFAULT, s[0]);
        assert false;
      }
    } else {
      LinkedFacts(st, DEFAULT, best.value);
    }
  }

  lemma EffectiveBelow(st: State, mk: Marks, k: int)
    requires st.Ok() && MarksOk(st, mk) && k in mk
    ensures Effective(st, mk[k], st.chains[k]) <= st.clock
  {
    var s := st.chains[k];
    if mk[k].rep.None? && s != [] {
      var i :| 0 <= i < |s| && StampAt(st.stamp, s[i]) == Latest(st.stamp, s);
      LinkedFacts(st, k, s[i]);
    }
  }

  /** A user chain that is empty or not older than the best is passed over. */
  lemma BestSkip(st: State, mk: Marks, ks: set<int>, best: Option<int>, minimum: int, k: int)
    requires st.Ok() && MarksOk(st, mk) && BestOf(st, mk, ks, best, minimum) && k in st.chains && !IsSystem(k)
    requires st.chains[k] == [] || Effective(st, mk[k], st.chains[k]) >= minimum
    ensures BestOf(st, mk, ks + {k}, best, minimum)
  {
    hide Distinct, Effective;
    if st.chains[k] != [] {
      EffectiveBelow(st, mk, k);
    }
    forall u | u in st.resides && st.resides[u] == k
      ensures st.chains[k] != []
    {
      ResidentFacts(st, u);
    }
  }

  /** The oldest page of an older user chain becomes the best. */
  lemma BestTake(st: State, mk: Marks, ks: set<int>, best: Option<int>, minimum: int, k: int, a: int)
    requires st.Ok() && MarksOk(st, mk) && BestOf(st, mk, ks, best, minimum) && k in st.chains && !IsSystem(k)
    requires Oldest(st, a, st.chains[k]) && Effective(st, mk[k], st.chains[k]) < minimum
    ensures BestOf(st, mk, ks + {k}, Some(a), Effective(st, mk[k], st.chains[k]))
  {
    hide Distinct, Effective;
    LinkedFacts(st, k, a);
    forall u | u in st.resides && st.resides[u] in ks
      ensures best.Some?
    {
      ResidentFacts(st, u);
      var l := st.resides[u];
      assert st.chains[l] != [] && l in ks;
    }
  }

  /** Once all chains but the empty hated and spilled ones are searched, the best page is the choice. */
  lemma BestDone(st: State, mk: Marks, best: Option<int>, minimum: int, w: int)
    requires st.Ok() && mk.Keys == st.chains.Keys && w in st.resident
    requires st.chains[HATED] == [] && st.chains[SPILLOVER] == []
    requires BestOf(st, mk, st.chains.Keys - {HATED, SPILLOVER}, best, minimum)
    ensures best.Some? && Chosen(st, mk, best.value)
  {
    hide Distinct, Effective;
    forall u | u in st.resides
      ensures st.resides[u] in st.chains.Keys - {HATED, SPILLOVER}
    {
      ResidentFacts(st, u);
    }
    ResidentFacts(st, w);
    var l := st.resides[w];
    assert st.chains[l] != [] && l in st.chains.Keys - {HATED, SPILLOVER};
  }

  lemma OldestFacts(st: State, k: int, a: int)
    requires st.Ok() && k in st.chains && Oldest(st, a, st.chains[k])
    ensures a in st.resides && st.resides[a] == k && a in st.resident
  {
    LinkedFacts(st, k, a);
  }

  /** No page of a chain that is not empty is as late as a limit in the future. */
  lemma NotLater(st: State, k: int, limit: int)
    requires st.Ok() && k in st.chains && st.chains[k] != [] && limit > st.clock
    ensures exists u :: u in st.chains[k] && StampAt(st.stamp, u) < limit
  {
    var u := st.chains[k][0];
    LinkedFacts(st, k, u);
  }

  /** Marks speak only of chains, stamps and the clock. */
  lemma MarksSame(st: State, st': State, mk: Marks)
    requires MarksOk(st, mk) && st'.chains == st.chains && st'.stamp == st.stamp && st'.clock == st.clock
    ensures MarksOk(st', mk) && (Unbroken(st, mk) ==> Unbroken(st', mk))
  {
  }

  lemma MarksEvict(st: State, mk: Marks, a: int)
    requires MarksOk(st, mk) && st.Ok() && a in st.resides
    ensures st.resides[a] in st.chains && st.resides[a] in mk
    ensures MarksOk(st.Evict(a), mk[st.resides[a] := Forget(mk[st.resides[a]], a)])
    ensures Unbroken(st, mk) ==> Unbroken(st.Evict(a), mk[st.resides[a] := Forget(mk[st.resides[a]], a)])
  {
    MarksUnlink(st, mk, a);
    hide MarksOk, Unbroken, Forget;
    MarksSame(st.Unlink(a), st.Evict(a), mk[st.resides[a] := Forget(mk[st.resides[a]], a)]);
  }

  lemma MarksUnchain(st: State, mk: Marks, k: int)
    requires MarksOk(st, mk) && k in st.chains
    ensures MarksOk(st.Unchain(k), mk)
  {
  }
}
