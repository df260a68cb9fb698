/** The love clock replacement policy: a clock whose pages carry a love count besides the
    reference bit (MemoryManagerSimulator). */
module LoveClock {
  import opened Sequences

  class MemoryPage {
    var love: int
    var referenced: bool

    constructor ()
      ensures love == 0 && !referenced
    {
      love, referenced := 0, false;
    }
  }

  /** How many times the hand passes over a page before it would evict it. A page of negative love
      is never evicted. */
  function Cost(love: int, referenced: bool): int {
    if love > 0 then love + 1 else if referenced then 1 else 0
  }

  /** Clockwise distance from the hand to position i on a clock of n pages. */
  function Distance(hand: nat, i: nat, n: nat): int {
    if i >= hand then i - hand else i - hand + n
  }

  /** Love left after the hand passed v times. */
  function LoveAfter(love: int, v: nat): int {
    if love < 0 then love else if v >= love then 0 else love - v
  }

  function ReferencedAfter(love: int, referenced: bool, v: nat): bool {
    if v == 0 || love < 0 then referenced else v <= love
  }

  /** Times the hand has passed position i after m full rounds and k further pages. */
  function Passes(hand: nat, i: nat, n: nat, m: nat, k: nat): nat {
    m + if Distance(hand, i, n) < k then 1 else 0
  }

  /** Advances made in m full rounds of n pages and k further steps. */
  function Rounds(m: nat, n: nat, k: nat): nat {
    m * n + k
  }

  function Next(hand: nat, n: nat): (r: nat)
    requires hand < n
    ensures r == if hand + 1 == n then 0 else hand + 1
  {
    (hand + 1) % n
  }

  /** Where the sweep is: at distance k of round m, having passed every page as often as
      `passes` says. */
  ghost predicate Position(hand: nat, n: nat, cur: nat, m: nat, k: nat, passes: seq<nat>) {
    && hand < n && cur < n && k < n && Distance(hand, cur, n) == k && |passes| == n
    && forall i :: 0 <= i < n ==> passes[i] == Passes(hand, i, n, m, k) >= m
  }

  lemma NextPosition(hand: nat, n: nat, cur: nat, m: nat, k: nat, passes: seq<nat>)
    requires Position(hand, n, cur, m, k, passes)
    ensures var m' := if k + 1 == n then m + 1 else m;
      var k' := if k + 1 == n then 0 else k + 1;
      && Position(hand, n, Next(cur, n), m', k', passes[cur := passes[cur] + 1])
      && Rounds(m', n, k') == Rounds(m, n, k) + 1
  {
    hide Rounds;
    NextRounds(m, n, k);
  }

  lemma NextRounds(m: nat, n: nat, k: nat)
    requires k < n
    ensures Rounds(m, n, k) + 1 == if k + 1 == n then Rounds(m + 1, n, 0) else Rounds(m, n, k + 1)
  {
  }

  lemma EndSweep(love: seq<int>, referenced: seq<bool>, hand: nat, cur: nat, m: nat, k: nat, passes: seq<nat>)
    requires |love| == |referenced| && Position(hand, |love|, cur, m, k, passes)
    requires forall i :: 0 <= i < |love| && love[i] >= 0 ==> passes[i] <= Cost(love[i], referenced[i])
    requires LoveAfter(love[cur], passes[cur]) == 0 && !ReferencedAfter(love[cur], referenced[cur], passes[cur])
    ensures FirstVictim(love, referenced, hand, cur) && m == Cost(love[cur], referenced[cur])
  {
    PassOnce(love[cur], referenced[cur], passes[cur]);
  }

  lemma StartSweep(pages: seq<MemoryPage>, hand: nat, passes: seq<nat>)
    requires hand < |pages| == |passes| && forall i :: 0 <= i < |passes| ==> passes[i] == 0
    ensures Position(hand, |pages|, hand, 0, 0, passes) && Rounds(0, |pages|, 0) == 0
    ensures SweptBy(pages, Loves(pages), References(pages), passes)
    ensures forall i :: 0 <= i < |pages| ==> 0 <= Cost(pages[i].love, pages[i].referenced)
  {
  }

  lemma RoundsBounded(ps: seq<MemoryPage>, love: seq<int>, referenced: seq<bool>, passes: seq<nat>,
                      hand: nat, cur: nat, m: nat, k: nat, w: nat)
    requires SweptBy(ps, love, referenced, passes) && Position(hand, |ps|, cur, m, k, passes)
    requires w < |ps| && love[w] >= 0
    ensures m <= Cost(love[w], referenced[w]) && k < |ps|
  {
    assert passes[w] >= m;
  }

  lemma SweptFacts(ps: seq<MemoryPage>, love: seq<int>, referenced: seq<bool>, passes: seq<nat>)
    requires SweptBy(ps, love, referenced, passes)
    ensures |ps| == |love| == |referenced| == |passes|
    ensures forall i :: 0 <= i < |ps| ==>
      Passed(ps[i], love[i], referenced[i], passes[i]) && (love[i] >= 0 ==> passes[i] <= Cost(love[i], referenced[i]))
  {
    forall i | 0 <= i < |ps|
      ensures Passed(ps[i], love[i], referenced[i], passes[i]) && (love[i] >= 0 ==> passes[i] <= Cost(love[i], referenced[i]))
    {
      assert passes[i] == passes[i];
    }
  }

  lemma PositionFacts(hand: nat, n: nat, cur: nat, m: nat, k: nat, passes: seq<nat>)
    requires Position(hand, n, cur, m, k, passes)
    ensures cur < n && k < n && |passes| == n && Distance(hand, cur, n) == k
    ensures forall i :: 0 <= i < n ==> passes[i] == Passes(hand, i, n, m, k)
  {
  }

  lemma PassedState(page: MemoryPage, love: int, referenced: bool, v: nat)
    requires Passed(page, love, referenced, v)
    ensures page.love == LoveAfter(love, v) && page.referenced == ReferencedAfter(love, referenced, v)
  {
  }

  /** The victim comes first in the order (cost, distance from the hand). */
  ghost predicate FirstVictim(love: seq<int>, referenced: seq<bool>, hand: nat, v: nat)
    requires |love| == |referenced|
  {
    var n := |love|;
    && v < n && love[v] >= 0
    && forall j: nat :: j < n && love[j] >= 0 ==>
         var c, c' := Cost(love[v], referenced[v]), Cost(love[j], referenced[j]);
         c < c' || (c == c' && Distance(hand, v, n) <= Distance(hand, j, n))
  }

  /** There is only one such victim. */
  lemma FirstVictimUnique(love: seq<int>, referenced: seq<bool>, hand: nat, v: nat, v': nat)
    requires |love| == |referenced| && hand < |love|
    requires FirstVictim(love, referenced, hand, v) && FirstVictim(love, referenced, hand, v')
    ensures v == v'
  {
    var n := |love|;
    assert Distance(hand, v, n) == Distance(hand, v', n);
  }

  ghost function Loves(pages: seq<MemoryPage>): (r: seq<int>)
    reads pages
    ensures |r| == |pages| && forall i :: 0 <= i < |pages| ==> r[i] == pages[i].love
  {
    seq(|pages|, i requires 0 <= i < |pages| reads pages => pages[i].love)
  }

  ghost function References(pages: seq<MemoryPage>): (r: seq<bool>)
    reads pages
    ensures |r| == |pages| && forall i :: 0 <= i < |pages| ==> r[i] == pages[i].referenced
  {
    seq(|pages|, i requires 0 <= i < |pages| reads pages => pages[i].referenced)
  }

  /** One pass of the hand over a page that it does not evict. */
  method PassPage(page: MemoryPage, ghost love: int, ghost referenced: bool, ghost v: nat)
    requires Passed(page, love, referenced, v) && (love >= 0 ==> v <= Cost(love, referenced))
    requires !(page.love == 0 && !page.referenced)
    modifies page
    ensures Passed(page, love, referenced, v + 1) && (love >= 0 ==> v + 1 <= Cost(love, referenced))
    ensures (page.love, page.referenced) == PassOver(old(page.love), old(page.referenced))
  {
    PassOnce(love, referenced, v);
    if page.love == 0 {
      page.referenced := false;
    }
    if page.love > 0 {
      page.love := page.love - 1;
      page.referenced := true;
    }
  }

  /** Every page has been passed as often as `passes` says, and not once too often. */
  ghost predicate SweptBy(ps: seq<MemoryPage>, love: seq<int>, referenced: seq<bool>, passes: seq<nat>)
    reads ps
  {
    && |ps| == |love| == |referenced| == |passes|
    && forall i {:trigger passes[i]} :: 0 <= i < |ps| ==>
         && Passed(ps[i], love[i], referenced[i], passes[i])
         && (love[i] >= 0 ==> passes[i] <= Cost(love[i], referenced[i]))
  }

  /** PassPage on the page at one position of the clock. */
  method PassAt(page: MemoryPage, ghost ps: seq<MemoryPage>, ghost cur: nat, ghost love: seq<int>,
                ghost referenced: seq<bool>, ghost passes: seq<nat>)
    requires SweptBy(ps, love, referenced, passes) && Distinct(ps) && cur < |ps| && page == ps[cur]
    requires !(page.love == 0 && !page.referenced)
    modifies page
    ensures SweptBy(ps, love, referenced, passes[cur := passes[cur] + 1])
    ensures (page.love, page.referenced) == PassOver(old(page.love), old(page.referenced))
  {
    hide Passed, Cost, PassOver;
    assert passes[cur] == passes[cur];
    PassPage(page, love[cur], referenced[cur], passes[cur]);
    forall i | 0 <= i < |ps| && i != cur
      ensures ps[i] != page && Passed(ps[i], love[i], referenced[i], passes[i])
    {
    }
  }

  class LoveClockReplacementPolicy {
    var clockHand: nat

    constructor ()
      ensures clockHand == 0
    {
      clockHand := 0;
    }

    /** The clock as a value. */
    ghost function Clock(ps: seq<MemoryPage>): Sweep
      reads `clockHand, ps
    {
      Sweep(Loves(ps), References(ps), clockHand)
    }

    lemma ClockFacts(ps: seq<MemoryPage>)
      requires clockHand < |ps|
      ensures var c := Clock(ps);
        c.Ok() && c.hand == clockHand && |c.love| == |ps| && (c.Found() <==> ps[clockHand].love == 0 && !ps[clockHand].referenced)
    {
    }

    /** The else branch of the search: use up some of the page's cost and advance the hand. */
    method Advance(page: MemoryPage, n: nat, ghost ps: seq<MemoryPage>, ghost love: seq<int>, ghost referenced: seq<bool>,
                   ghost hand: nat, ghost m: nat, ghost k: nat, ghost passes: seq<nat>)
      returns (ghost m': nat, ghost k': nat, ghost passes': seq<nat>)
      requires |ps| == n && Distinct(ps) && SweptBy(ps, love, referenced, passes)
      requires Position(hand, n, clockHand, m, k, passes) && page == ps[clockHand]
      requires !(page.love == 0 && !page.referenced)
      modifies `clockHand, page
      ensures SweptBy(ps, love, referenced, passes') && Position(hand, n, clockHand, m', k', passes')
      ensures Rounds(m', n, k') == Rounds(m, n, k) + 1
      ensures m' == m + 1 || (m' == m && k' == k + 1)
      ensures clockHand < n && Clock(ps) == old(Clock(ps)).Turn()
    {
      hide Cost, LoveAfter, ReferencedAfter, Passes, Distance, Rounds, Passed, SweptBy, PassOver;
      ghost var before := Clock(ps);
      NextPosition(hand, n, clockHand, m, k, passes);
      passes' := passes[clockHand := passes[clockHand] + 1];
      m', k' := if k + 1 == n then m + 1 else m, if k + 1 == n then 0 else k + 1;
      PassAt(page, ps, clockHand, love, referenced, passes);
      ghost var cur := clockHand;
      clockHand := Next(clockHand, n);
      assert forall i :: 0 <= i < n && i != cur ==> ps[i] != page;
      assert Clock(ps).love == before.Turn().love;
      assert Clock(ps).referenced == before.Turn().referenced;
    }

    /** findPageToEvict. It needs a page of non-negative love: without one it never returns, as
        VictimIff shows. */
    method FindPageToEvict(pages: array<MemoryPage>) returns (victim: MemoryPage, ghost advances: nat)
      requires clockHand < pages.Length && Distinct(pages[..])
      requires exists i :: 0 <= i < pages.Length && pages[i].love >= 0
      modifies `clockHand, pages[..]
      ensures clockHand < pages.Length && victim == pages[clockHand]
      ensures var love, referenced := old(Loves(pages[..])), old(References(pages[..]));
        && FirstVictim(love, referenced, old(clockHand), clockHand)
        && var d := Distance(old(clockHand), clockHand, pages.Length);
        && var m := Cost(love[clockHand], referenced[clockHand]);
        && advances == Rounds(m, pages.Length, d)
        && forall i :: 0 <= i < pages.Length ==>
             Passed(pages[..][i], love[i], referenced[i], Passes(old(clockHand), i, pages.Length, m, d))
      ensures Clock(pages[..]) == Turns(old(Clock(pages[..])), advances) && Clock(pages[..]).Found()
    {
      hide Cost, LoveAfter, ReferencedAfter, Passes, Distance, Rounds, Passed, Distinct, Position, SweptBy, Turns, Sweep.Turn, Clock, Sweep.Found;
      ghost var n, hand := pages.Length, clockHand;
      ghost var ps := pages[..];
      ghost var love, referenced := Loves(ps), References(ps);
      ghost var w :| 0 <= w < n && pages[w].love >= 0;
      ghost var m: nat, k: nat := 0, 0;
      ghost var passes: seq<nat> := seq(n, _ => 0);
      advances := 0;
      StartSweep(ps, hand, passes);
      ghost var start := Clock(ps);
      ClockFacts(ps);
      NoTurns(start);
      while true
        invariant Position(hand, n, clockHand, m, k, passes) && advances == Rounds(m, n, k)
        invariant SweptBy(ps, love, referenced, passes) && m <= Cost(love[w], referenced[w])
        invariant clockHand < n && Clock(ps) == Turns(start, advances)
        decreases Cost(love[w], referenced[w]) - m, n - k
      {
        PositionFacts(hand, n, clockHand, m, k, passes);
        SweptFacts(ps, love, referenced, passes);
        var page := pages[clockHand];
        assert page == ps[clockHand];
        if page.love == 0 && !page.referenced {
          PassedState(page, love[clockHand], referenced[clockHand], passes[clockHand]);
          EndSweep(love, referenced, hand, clockHand, m, k, passes);
          ClockFacts(ps);
          return page, advances;
        }
        m, k, passes := Advance(page, pages.Length, ps, love, referenced, hand, m, k, passes);
        advances := advances + 1;
        NextTurn(start, advances - 1);
        RoundsBounded(ps, love, referenced, passes, hand, clockHand, m, k, w);
      }
    }

    /** hate. */
    method Hate(page: MemoryPage)
      modifies page
      ensures page.love == 0 && !page.referenced && Cost(page.love, page.referenced) == 0
    {
      page.love := 0;
      page.referenced := false;
    }

    /** love. */
    method Love(page: MemoryPage, l: int)
      modifies page
      ensures page.love == l && page.referenced && (l >= 0 ==> Cost(page.love, page.referenced) == l + 1)
    {
      page.love := l;
      page.referenced := true;
    }
  }

  /** What one pass of the hand leaves of a page that it does not evict. */
  function PassOver(love: int, referenced: bool): (int, bool) {
    if love > 0 then (love - 1, true) else if love == 0 then (0, false) else (love, referenced)
  }

  /** The clock as a value: the pages' love counts and reference bits, and the hand. */
  datatype Sweep = Sweep(love: seq<int>, referenced: seq<bool>, hand: nat) {
    predicate Ok() {
      hand < |love| == |referenced|
    }

    /** The guard of findPageToEvict: the page under the hand is the victim. */
    predicate Found()
      requires Ok()
    {
      love[hand] == 0 && !referenced[hand]
    }

    /** The else branch. */
    function Turn(): (r: Sweep)
      requires Ok()
      ensures r.Ok() && |r.love| == |love|
    {
      var p := PassOver(love[hand], referenced[hand]);
      Sweep(love[hand := p.0], referenced[hand := p.1], Next(hand, |love|))
    }
  }

  function Turns(s: Sweep, t: nat): (r: Sweep)
    requires s.Ok()
    ensures r.Ok() && |r.love| == |s.love|
    decreases t
  {
    if t == 0 then s else Turns(s.Turn(), t - 1)
  }

  lemma NoTurns(s: Sweep)
    requires s.Ok()
    ensures Turns(s, 0) == s
  {
  }

  lemma {:induction false} NextTurn(s: Sweep, t: nat)
    requires s.Ok()
    ensures Turns(s, t + 1) == Turns(s, t).Turn()
    decreases t
  {
    if t > 0 {
      NextTurn(s.Turn(), t - 1);
    }
  }

  /** A page of negative love is never a victim and stays as it is. */
  lemma {:induction false} NeverFound(s: Sweep, t: nat)
    requires s.Ok() && forall i :: 0 <= i < |s.love| ==> s.love[i] < 0
    ensures !Turns(s, t).Found() && Turns(s, t).love == s.love
    decreases t
  {
    if t > 0 {
      assert s.Turn().love == s.love;
      NeverFound(s.Turn(), t - 1);
    }
  }

  /** A page w of non-negative love bounds the search: each visit to it lowers its cost. */
  lemma {:induction false} FoundBy(s: Sweep, w: nat) returns (t: nat)
    requires s.Ok() && w < |s.love| && s.love[w] >= 0
    ensures Turns(s, t).Found()
    decreases Cost(s.love[w], s.referenced[w]), Distance(s.hand, w, |s.love|)
  {
    if s.Found() {
      t := 0;
    } else {
      var rest := FoundBy(s.Turn(), w);
      t := rest + 1;
    }
  }

  ghost predicate Ends(s: Sweep)
    requires s.Ok()
  {
    exists t: nat :: Turns(s, t).Found()
  }

  /** The search ends if and only if some page has non-negative love. */
  lemma VictimIff(s: Sweep)
    requires s.Ok()
    ensures Ends(s) <==> exists i :: 0 <= i < |s.love| && s.love[i] >= 0
  {
    if forall i :: 0 <= i < |s.love| ==> s.love[i] < 0 {
      forall t: nat
        ensures !Turns(s, t).Found()
      {
        NeverFound(s, t);
      }
    } else {
      var i :| 0 <= i < |s.love| && s.love[i] >= 0;
      var t := FoundBy(s, i);
      assert Turns(s, t).Found();
    }
  }

  /** One page after love(page, -1): the loop runs for ever. */
  lemma UnlovedForEver(t: nat)
    ensures !Turns(Sweep([-1], [true], 0), t).Found()
  {
    NeverFound(Sweep([-1], [true], 0), t);
  }

  /** A page the hand has passed v times. */
  ghost predicate Passed(page: MemoryPage, love: int, referenced: bool, v: nat)
    reads page
  {
    page.love == LoveAfter(love, v) && page.referenced == ReferencedAfter(love, referenced, v)
  }

  /** Passing a page that is not yet a victim costs it one. */
  lemma PassOnce(love: int, referenced: bool, v: nat)
    requires love >= 0 ==> v <= Cost(love, referenced)
    ensures var l, r := LoveAfter(love, v), ReferencedAfter(love, referenced, v);
      && (love >= 0 ==> (l == 0 && !r <==> v == Cost(love, referenced)))
      && (love >= 0 && !(l == 0 && !r) ==>
            && LoveAfter(love, v + 1) == (if l > 0 then l - 1 else 0)
            && ReferencedAfter(love, referenced, v + 1) == (l > 0))
      && (love < 0 ==> LoveAfter(love, v + 1) == l && ReferencedAfter(love, referenced, v + 1) == r)
  {
  }
}
