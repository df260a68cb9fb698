/** Kernel memory chains: the reference counter that protects all pages of a chain while any of
    them is in use (Linux/mchain.c, Linux/page-flags.h, Linux/swap.c). Each operation is one step. */
module ChainCounter {
  import opened Options
  import opened Sequences

  /** The parts of struct page used here; chain is page->chain, referenced is PG_referenced. */
  datatype Page = Page(chain: Option<nat>, referenced: bool, active: bool, unevictable: bool, lru: bool)

  datatype Chain = Chain(links: seq<nat>, nrLinks: int, refCounter: int, anchor: Option<nat>, delegate: Option<nat>)

  type Pages = map<nat, Page>
  type Chains = map<nat, Chain>

  /** The pages linked to chain c. */
  ghost function Members(page: Pages, c: nat): set<nat> {
    set p | p in page && page[p].chain == Some(c)
  }

  /** Those of them whose own referenced bit is set. */
  ghost function Referenced(page: Pages, c: nat): set<nat> {
    set p | p in page && page[p].chain == Some(c) && page[p].referenced
  }

  /** The chain links its members, once each, and its counter is at least the number of its
      referenced members. */
  ghost predicate ChainOk(page: Pages, c: nat, ch: Chain) {
    && Elements(ch.links) == Members(page, c)
    && ch.nrLinks == |ch.links| == |Members(page, c)|
    && ch.refCounter >= |Referenced(page, c)|
  }

  /** By how much the counter of chain c exceeds the number of its referenced members. */
  ghost function Excess(page: Pages, c: nat, ch: Chain): int {
    ch.refCounter - |Referenced(page, c)|
  }

  /** The anchor and the delegate of chain c are pages of the chain, if there are any. */
  ghost predicate RolesOk(page: Pages, c: nat, ch: Chain) {
    && (ch.anchor.Some? ==> ch.anchor.value in page && page[ch.anchor.value].chain == Some(c))
    && (ch.delegate.Some? ==> ch.delegate.value in page && page[ch.delegate.value].chain == Some(c))
  }

  ghost predicate TableOk(page: Pages, chain: Chains) {
    && (forall c {:trigger chain[c]} :: c in chain ==> ChainOk(page, c, chain[c]) && RolesOk(page, c, chain[c]))
    && (forall p :: p in page && page[p].chain.Some? ==> page[p].chain.value in chain)
  }

  lemma {:induction false} MinusMembers(s: seq<nat>, p: nat)
    requires |Elements(s)| == |s|
    ensures Elements(Minus(s, p)) == Elements(s) - {p}
  {
    if s != [] {
      assert Elements(s) == {s[0]} + Elements(s[1..]);
      ElementsBound(s[1..]);
      if s[0] == p {
        assert p !in Elements(s[1..]);
      } else {
        MinusMembers(s[1..], p);
        assert Elements(Minus(s, p)) == {s[0]} + Elements(Minus(s[1..], p));
      }
    }
  }

  lemma {:induction false} MinusLength(s: seq<nat>, p: nat)
    requires p in s
    ensures |Minus(s, p)| == |s| - 1
  {
    if s[0] != p {
      MinusLength(s[1..], p);
    }
  }

  lemma FirstElement(s: seq<nat>)
    requires s != [] && |Elements(s)| == |s|
    ensures Elements(s) == {s[0]} + Elements(s[1..]) && s[0] !in Elements(s[1..]) && |Elements(s[1..])| == |s| - 1
  {
    assert Elements(s) == {s[0]} + Elements(s[1..]);
    ElementsBound(s[1..]);
  }

  lemma {:induction false} ElementsBound(s: seq<nat>)
    ensures |Elements(s)| <= |s|
  {
    if s != [] {
      ElementsBound(s[1..]);
      assert Elements(s) == {s[0]} + Elements(s[1..]);
    }
  }

  /** How one page's new state changes the members and the referenced members of a chain. */
  lemma PageUpdate(page: Pages, p: nat, v: Page, c: nat)
    requires p in page
    ensures Members(page[p := v], c) == Toggle(Members(page, c), p, v.chain == Some(c))
    ensures Referenced(page[p := v], c) == Toggle(Referenced(page, c), p, v.chain == Some(c) && v.referenced)
    ensures p in Members(page, c) <==> page[p].chain == Some(c)
    ensures p in Referenced(page, c) <==> page[p].chain == Some(c) && page[p].referenced
  {
    hide Toggle;
    var page' := page[p := v];
    forall q
      ensures q in Members(page', c) <==> q in Toggle(Members(page, c), p, v.chain == Some(c))
      ensures q in Referenced(page', c) <==> q in Toggle(Referenced(page, c), p, v.chain == Some(c) && v.referenced)
    {
      assert q != p ==> (q in page' <==> q in page) && (q in page ==> page'[q] == page[q]);
    }
  }

  ghost function Toggle(s: set<nat>, p: nat, b: bool): (r: set<nat>)
    ensures |r| == |s| + (if b then 1 else 0) - (if p in s then 1 else 0)
    ensures b == (p in s) ==> r == s
    ensures forall x :: x in r <==> if x == p then b else x in s
  {
    if b then
      if p in s then assert s + {p} == s; s + {p} else s + {p}
    else
      if p in s then s - {p} else assert s - {p} == s; s - {p}
  }

  lemma CardinalityMonotone(a: set<nat>, b: set<nat>)
    requires a <= b
    ensures |a| <= |b|
  {
    assert b == a + (b - a);
  }

  /** What __unlink_page leaves of the chain of page p. */
  function ChainWithout(ch: Chain, p: nat, referenced: bool): Chain {
    Chain(Minus(ch.links, p), ch.nrLinks - 1, ch.refCounter - (if referenced then 1 else 0),
          if ch.anchor == Some(p) then None else ch.anchor, if ch.delegate == Some(p) then None else ch.delegate)
  }

  /** The chains once page p has left its own. */
  function AfterUnlink(page: Pages, chain: Chains, p: nat): Chains
    requires p in page && (page[p].chain.Some? ==> page[p].chain.value in chain)
  {
    var k := page[p].chain;
    if k.Some? then chain[k.value := ChainWithout(chain[k.value], p, page[p].referenced)] else chain
  }

  /** The chains once a counter has changed by d. */
  function AfterCount(chain: Chains, c: Option<nat>, d: int): Chains
    requires c.Some? ==> c.value in chain
  {
    if c.Some? then chain[c.value := chain[c.value].(refCounter := chain[c.value].refCounter + d)] else chain
  }

  lemma NoNegativeExcess(page: Pages, chain: Chains)
    requires TableOk(page, chain)
    ensures forall k :: k in chain ==> Excess(page, k, chain[k]) >= 0
  {
    assert forall k :: k in chain ==> ChainOk(page, k, chain[k]);
  }

  /** mark_page_accessed charges the whole chain: its counter becomes the number of its links, which
      is positive because p is one of them. */
  lemma ChargeTable(page: Pages, chain: Chains, c: nat, p: nat)
    requires TableOk(page, chain) && c in chain && p in page && page[p].chain == Some(c)
    ensures var chain' := chain[c := chain[c].(refCounter := chain[c].nrLinks, delegate := Some(p))];
      && TableOk(page, chain') && chain[c].nrLinks > 0
      && forall k :: k in chain' ==>
        Excess(page, k, chain'[k]) == if k == c then |Members(page, c)| - |Referenced(page, c)| else Excess(page, k, chain[k])
  {
    assert forall k :: k in chain ==> ChainOk(page, k, chain[k]);
    CardinalityMonotone(Referenced(page, c), Members(page, c));
    CardinalityMonotone({p}, Members(page, c));
  }

  /** The page after mark_page_accessed: an unreferenced page becomes referenced; a referenced page,
      or any page of a chain, that is inactive, evictable and on an LRU list is activated instead. */
  ghost predicate PageMarked(page: Pages, page': Pages, p: nat)
    requires p in page
  {
    var activate := !page[p].active && !page[p].unevictable && page[p].lru && (page[p].referenced || page[p].chain.Some?);
    page' == page[p := if activate then page[p].(active := true, referenced := false) else page[p].(referenced := true)]
  }

  /** What __link_page makes of a chain that receives page p. */
  function ChainWith(ch: Chain, p: nat, referenced: bool): Chain {
    ch.(links := [p] + ch.links, nrLinks := ch.nrLinks + 1, refCounter := ch.refCounter + (if referenced then 1 else 0))
  }

  /** A page that stays in its chain affects only that chain's count of referenced pages. */
  lemma SameChainUpdate(page: Pages, p: nat, v: Page, c: nat, ch: Chain)
    requires p in page && v.chain == page[p].chain && ChainOk(page, c, ch)
    ensures v.chain != Some(c) ==> ChainOk(page[p := v], c, ch)
    ensures Members(page[p := v], c) == Members(page, c)
    ensures |Referenced(page[p := v], c)| ==
      |Referenced(page, c)| + (if v.chain == Some(c) then Bit(v.referenced) - Bit(page[p].referenced) else 0)
  {
    hide Members, Referenced, Toggle, Elements;
    PageUpdate(page, p, v, c);
  }

  function Bit(b: bool): int { if b then 1 else 0 }

  /** A page leaves its chain: what that does to the chain k. */
  lemma UnlinkOk(page: Pages, p: nat, k: nat, ch: Chain)
    requires p in page && ChainOk(page, k, ch)
    ensures var page' := page[p := page[p].(chain := None)];
      var ch' := if page[p].chain == Some(k) then ChainWithout(ch, p, page[p].referenced) else ch;
      ChainOk(page', k, ch') && Excess(page', k, ch') == Excess(page, k, ch)
  {
    hide Members, Referenced, Toggle, Elements, Minus;
    PageUpdate(page, p, page[p].(chain := None), k);
    if page[p].chain == Some(k) {
      UnlinkMember(page, p, k, ch);
    }
  }

  lemma UnlinkMember(page: Pages, p: nat, k: nat, ch: Chain)
    requires p in page && ChainOk(page, k, ch) && page[p].chain == Some(k)
    ensures p in ch.links && Elements(Minus(ch.links, p)) == Toggle(Members(page, k), p, false)
    ensures |Minus(ch.links, p)| == |ch.links| - 1
  {
    hide Minus;
    MinusMembers(ch.links, p);
    assert p in Elements(ch.links);
    MinusLength(ch.links, p);
  }

  lemma LinkMember(links: seq<nat>, p: nat)
    ensures p !in Elements(links) ==> Elements([p] + links) == Toggle(Elements(links), p, true)
  {
    assert Elements([p] + links) == {p} + Elements(links);
  }

  /** A page without a chain joins chain c: what that does to the chain k. */
  lemma LinkOk(page: Pages, p: nat, c: nat, k: nat, ch: Chain)
    requires p in page && page[p].chain.None? && ChainOk(page, k, ch)
    ensures var page' := page[p := page[p].(chain := Some(c))];
      var ch' := if k == c then ChainWith(ch, p, page[p].referenced) else ch;
      ChainOk(page', k, ch') && Excess(page', k, ch') == Excess(page, k, ch)
  {
    hide Members, Referenced, Toggle, Elements;
    PageUpdate(page, p, page[p].(chain := Some(c)), k);
    LinkMember(ch.links, p);
  }

  lemma UnlinkTable(page: Pages, chain: Chains, p: nat)
    requires TableOk(page, chain) && p in page
    ensures var page', chain' := page[p := page[p].(chain := None)], AfterUnlink(page, chain, p);
      TableOk(page', chain') && forall k :: k in chain' ==> Excess(page', k, chain'[k]) == Excess(page, k, chain[k])
  {
    hide ChainOk, Excess;
    forall k | k in chain
      ensures var page', chain' := page[p := page[p].(chain := None)], AfterUnlink(page, chain, p);
        ChainOk(page', k, chain'[k]) && RolesOk(page', k, chain'[k]) && Excess(page', k, chain'[k]) == Excess(page, k, chain[k])
    {
      assert ChainOk(page, k, chain[k]) && RolesOk(page, k, chain[k]);
      UnlinkOk(page, p, k, chain[k]);
    }
  }

  lemma LinkTable(page: Pages, chain: Chains, c: nat, p: nat)
    requires TableOk(page, chain) && p in page && page[p].chain.None? && c in chain
    ensures var page', chain' := page[p := page[p].(chain := Some(c))], chain[c := ChainWith(chain[c], p, page[p].referenced)];
      TableOk(page', chain') && forall k :: k in chain' ==> Excess(page', k, chain'[k]) == Excess(page, k, chain[k])
  {
    hide ChainOk, Excess;
    forall k | k in chain
      ensures var page', chain' := page[p := page[p].(chain := Some(c))], chain[c := ChainWith(chain[c], p, page[p].referenced)];
        ChainOk(page', k, chain'[k]) && RolesOk(page', k, chain'[k]) && Excess(page', k, chain'[k]) == Excess(page, k, chain[k])
    {
      assert ChainOk(page, k, chain[k]) && RolesOk(page, k, chain[k]);
      LinkOk(page, p, c, k, chain[k]);
    }
  }

  /** The pages of a set leave their chain with their referenced bits cleared, as __unlink_chain does. */
  function Detached(page: Pages, gone: set<nat>): (r: Pages)
    ensures r.Keys == page.Keys
  {
    map p | p in page :: if p in gone then page[p].(chain := None, referenced := false) else page[p]
  }

  /** One round of __unlink_chain, at the head of the links still to be visited. */
  lemma DetachStep(page: Pages, c: nat, links: seq<nat>)
    requires links != [] && |Elements(links)| == |links| && Elements(links) <= Members(page, c)
    ensures links[0] in page && Elements(links[1..]) <= Members(page, c) && |Elements(links[1..])| == |links| - 1
    ensures var gone, p := Members(page, c) - Elements(links), links[0];
      var r := Detached(page, gone);
      r[p] == page[p] && Detached(page, Members(page, c) - Elements(links[1..])) == r[p := r[p].(chain := None, referenced := false)]
  {
    hide Members, Detached, Elements;
    FirstElement(links);
    MemberExists(page, c, links[0]);
    assert Members(page, c) - Elements(links[1..]) == Members(page, c) - Elements(links) + {links[0]};
    DetachOne(page, Members(page, c) - Elements(links), links[0]);
  }

  lemma NoElements()
    ensures Elements<nat>([]) == {}
  {
  }

  lemma MemberExists(page: Pages, c: nat, p: nat)
    requires p in Members(page, c)
    ensures p in page
  {
  }

  lemma DetachedAre(page: Pages, c: nat)
    ensures var r := Detached(page, Members(page, c));
      && r.Keys == page.Keys
      && forall p :: p in page ==> r[p] == if page[p].chain == Some(c) then page[p].(chain := None, referenced := false) else page[p]
  {
  }

  lemma DetachNone(page: Pages)
    ensures forall s: set<nat> :: s == {} ==> Detached(page, s) == page
  {
  }

  lemma DetachOne(page: Pages, gone: set<nat>, p: nat)
    requires p in page && p !in gone
    ensures var r := Detached(page, gone);
      r[p] == page[p] && Detached(page, gone + {p}) == r[p := r[p].(chain := None, referenced := false)]
  {
  }

  lemma UnlinkChainTable(page: Pages, chain: Chains, c: nat)
    requires TableOk(page, chain) && c in chain
    ensures var page', chain' := Detached(page, Members(page, c)), chain[c := Chain([], 0, 0, None, None)];
      && TableOk(page', chain') && Members(page', c) == {}
      && forall k :: k in chain' ==> Excess(page', k, chain'[k]) == if k == c then 0 else Excess(page, k, chain[k])
  {
    hide Members, Referenced, Detached;
    var page', chain' := Detached(page, Members(page, c)), chain[c := Chain([], 0, 0, None, None)];
    forall k | k in chain
      ensures ChainOk(page', k, chain'[k]) && RolesOk(page', k, chain'[k])
      ensures Excess(page', k, chain'[k]) == if k == c then 0 else Excess(page, k, chain[k])
    {
      assert ChainOk(page, k, chain[k]) && RolesOk(page, k, chain[k]);
      UnlinkChainOk(page, c, k, chain[k]);
      if k != c { RolesKept(page, c, k, chain[k]); }
    }
    assert Members(page', c) == {} by { UnlinkChainOk(page, c, c, chain[c]); }
    forall p | p in page' && page'[p].chain.Some?
      ensures page'[p].chain.value in chain'
    {
      DetachedKeeps(page, Members(page, c), p);
    }
  }

  lemma RolesKept(page: Pages, c: nat, k: nat, ch: Chain)
    requires RolesOk(page, k, ch) && k != c
    ensures RolesOk(Detached(page, Members(page, c)), k, ch)
  {
  }

  lemma DetachedKeeps(page: Pages, gone: set<nat>, p: nat)
    requires p in page
    ensures p in Detached(page, gone) && (Detached(page, gone)[p].chain.Some? ==> Detached(page, gone)[p].chain == page[p].chain)
  {
  }

  /** Taking one chain apart leaves the others alone and that one empty. */
  lemma UnlinkChainOk(page: Pages, c: nat, k: nat, ch: Chain)
    requires ChainOk(page, k, ch)
    ensures var page' := Detached(page, Members(page, c));
      if k == c then Members(page', k) == {} && Referenced(page', k) == {}
      else Members(page', k) == Members(page, k) && Referenced(page', k) == Referenced(page, k)
  {
  }

  /** The main result: in a good table no counter is negative, and PageReferenced is true of every
      member of a chain as long as one of them is referenced. */
  lemma ChainProtection(page: Pages, chain: Chains, p: nat, q: nat)
    requires TableOk(page, chain) && p in page && q in page
    requires page[p].chain.Some? && page[p].chain == page[q].chain
    ensures chain[page[p].chain.value].refCounter >= 0
    ensures page[q].referenced ==> PageReferenced(page, chain, p)
  {
    var c := page[p].chain.value;
    assert ChainOk(page, c, chain[c]);
    if page[q].referenced {
      CardinalityMonotone({q}, Referenced(page, c));
    }
  }

  /** PageReferenced: the page's own bit, or else its chain's counter read as a truth value. */
  predicate PageReferenced(page: Pages, chain: Chains, p: nat)
    requires p in page && (page[p].chain.Some? ==> page[p].chain.value in chain)
  {
    page[p].referenced || (page[p].chain.Some? && chain[page[p].chain.value].refCounter != 0)
  }

  /** A linked page is referenced if and only if some page of its chain has its bit set or the counter is too
      large; an unlinked page answers for its own bit. So a yes without a referenced page in the chain comes
      from a counter that is too large, and from nothing else. */
  lemma PageReferencedIff(page: Pages, chain: Chains, p: nat)
    requires TableOk(page, chain) && p in page
    ensures page[p].chain.None? ==> (PageReferenced(page, chain, p) <==> page[p].referenced)
    ensures page[p].chain.Some? ==> var c := page[p].chain.value;
      PageReferenced(page, chain, p) <==> SomeReferenced(page, c) || Excess(page, c, chain[c]) > 0
  {
    if page[p].chain.Some? {
      var c := page[p].chain.value;
      assert ChainOk(page, c, chain[c]);
      SomeReferencedIff(page, c);
      if page[p].referenced {
        CardinalityMonotone({p}, Referenced(page, c));
      }
    }
  }

  ghost predicate SomeReferenced(page: Pages, c: nat) {
    exists q :: q in page && page[q].chain == Some(c) && page[q].referenced
  }

  lemma SomeReferencedIff(page: Pages, c: nat)
    ensures SomeReferenced(page, c) <==> |Referenced(page, c)| > 0
  {
    if SomeReferenced(page, c) {
      var q :| q in page && page[q].chain == Some(c) && page[q].referenced;
      CardinalityMonotone({q}, Referenced(page, c));
    } else {
      assert forall q :: q !in Referenced(page, c);
      assert Referenced(page, c) == {};
    }
  }

  /** With an exact counter PageReferenced is the or of the bits of the chain. */
  lemma ExactReferencedIff(page: Pages, chain: Chains, p: nat)
    requires TableOk(page, chain) && p in page && page[p].chain.Some?
    requires Excess(page, page[p].chain.value, chain[page[p].chain.value]) == 0
    ensures PageReferenced(page, chain, p) <==> SomeReferenced(page, page[p].chain.value)
  {
    PageReferencedIff(page, chain, p);
  }

  /** What TestClearPageReferenced answers: the or of the bits of the page's chain before the call, unless the
      counter is too large. */
  lemma TestClearIff(page: Pages, chain: Chains, page': Pages, chain': Chains, p: nat, v: bool)
    requires TableOk(page, chain) && TableOk(page', chain') && p in page && page' == page[p := page[p].(referenced := false)]
    requires v <==> page[p].referenced || PageReferenced(page', chain', p)
    requires page[p].chain.Some? ==> var c := page[p].chain.value;
      c in chain && c in chain' && Excess(page', c, chain'[c]) == Excess(page, c, chain[c])
    ensures page[p].chain.None? ==> (v <==> page[p].referenced)
    ensures page[p].chain.Some? ==> var c := page[p].chain.value;
      c in chain && (v <==> SomeReferenced(page, c) || Excess(page, c, chain[c]) > 0)
  {
    hide TableOk, Excess, PageReferenced;
    PageReferencedIff(page', chain', p);
    if page[p].chain.Some? {
      var c := page[p].chain.value;
      if SomeReferenced(page, c) && !page[p].referenced {
        var q :| q in page && page[q].chain == Some(c) && page[q].referenced;
        assert page'[q].chain == Some(c) && page'[q].referenced;
      }
    }
  }

  /** The steps of the system. */
  datatype Op =
    | New(c: nat) | Link(c: nat, p: nat) | Unlink(p: nat) | Break(c: nat) | Release(c: nat)
    | Mark(p: nat) | Set(p: nat) | Clear(p: nat) | TestClear(p: nat) | Free(p: nat)

  /** The calls that reach their object; the others return early or cannot be made. */
  predicate Enabled(op: Op, page: Pages, chain: Chains) {
    match op
    case New(c) => c !in chain
    case Link(c, p) => c in chain && p in page
    case Break(c) => c in chain
    case Release(c) => c in chain
    case _ => op.p in page
  }

  /** The excess of chain k after a step. A second SetPageReferenced and the freeing of a referenced
      page each add one; mark_page_accessed puts the number of links in place of the number of
      references; breaking a chain clears the excess. */
  ghost function ExcessAfter(op: Op, page: Pages, chain: Chains, k: nat): int
    requires Enabled(op, page, chain) && k in chain
  {
    var e := Excess(page, k, chain[k]);
    match op
    case Break(c) => if c == k then 0 else e
    case Mark(p) => if page[p].chain == Some(k) then |Members(page, k)| - |Referenced(page, k)| else e
    case Set(p) => if page[p].chain == Some(k) && page[p].referenced then e + 1 else e
    case Free(p) => if page[p].chain == Some(k) && page[p].referenced then e + 1 else e
    case _ => e
  }

  /** The guard under which a step keeps an exact counter exact. */
  ghost predicate KeepsExact(op: Op, page: Pages, k: nat) {
    match op
    case Mark(p) => p in page && page[p].chain == Some(k) ==> Members(page, k) == Referenced(page, k)
    case Set(p) => p in page && page[p].referenced ==> page[p].chain != Some(k)
    case Free(p) => p in page && page[p].referenced ==> page[p].chain != Some(k)
    case _ => true
  }

  /** The counter equals the number of referenced members after a step if and only if the guard holds,
      starting from an exact counter. */
  lemma ExactIff(op: Op, page: Pages, chain: Chains, k: nat)
    requires Enabled(op, page, chain) && k in chain && Excess(page, k, chain[k]) == 0
    ensures ExcessAfter(op, page, chain, k) == 0 <==> KeepsExact(op, page, k)
  {
    if op.Mark? {
      ghost var rest := Members(page, k) - Referenced(page, k);
      assert Members(page, k) == Referenced(page, k) + rest;
    }
  }

  /** All pages and all chains of the system. */
  class ChainTable {
    var page: Pages
    var chain: Chains

    constructor (pages: set<nat>)
      ensures Valid() && page.Keys == pages && chain == map[]
      ensures forall p :: p in page ==> page[p] == Page(None, false, false, false, false)
    {
      page := map p | p in pages :: Page(None, false, false, false, false);
      chain := map[];
    }

    ghost predicate Valid()
      reads this
    {
      TableOk(page, chain)
    }

    /** The table is good and every chain's excess is what the step makes of it. */
    ghost predicate Stepped(op: Op, page0: Pages, chain0: Chains)
      requires Enabled(op, page0, chain0)
      reads this
    {
      && Valid() && page.Keys == page0.Keys
      && forall k :: k in chain && k in chain0 ==> Excess(page, k, chain[k]) == ExcessAfter(op, page0, chain0, k)
    }

    /** new_mem_chain: a free slot gets an empty chain. */
    method NewChain(c: nat)
      requires Valid() && c !in chain
      modifies `chain
      ensures Valid() && chain == old(chain)[c := Chain([], 0, 0, None, None)]
    {
      assert Members(page, c) == {};
      CardinalityMonotone(Referenced(page, c), Members(page, c));
      chain := chain[c := Chain([], 0, 0, None, None)];
    }

    /** Page p changes to v in its chain, whose counter changes by d. */
    method Update(p: nat, v: Page, d: int)
      requires Valid() && p in page && v.chain == page[p].chain
      requires v.chain.Some? ==> Bit(v.referenced) - Bit(page[p].referenced) <= d + Excess(page, v.chain.value, chain[v.chain.value])
      modifies this
      ensures Valid() && page == old(page)[p := v] && chain == AfterCount(old(chain), v.chain, d)
      ensures forall k :: k in chain ==>
        Excess(page, k, chain[k]) - Excess(old(page), k, old(chain)[k])
          == (if v.chain == Some(k) then d - Bit(v.referenced) + Bit(old(page)[p].referenced) else 0)
    {
      hide Members, Referenced, Elements;
      ghost var page0, chain0 := page, chain;
      page := page[p := v];
      if v.chain.Some? {
        var c := v.chain.value;
        chain := chain[c := chain[c].(refCounter := chain[c].refCounter + d)];
      }
      forall k | k in chain
        ensures ChainOk(page, k, chain[k]) && RolesOk(page, k, chain[k])
        ensures Excess(page, k, chain[k]) - Excess(page0, k, chain0[k])
          == (if v.chain == Some(k) then d - Bit(v.referenced) + Bit(page0[p].referenced) else 0)
      {
        assert ChainOk(page0, k, chain0[k]) && RolesOk(page0, k, chain0[k]);
        SameChainUpdate(page0, p, v, k, chain0[k]);
      }
    }

    /** SetPageReferenced counts the page even when its bit was set before. */
    method SetPageReferenced(p: nat)
      requires Valid() && p in page
      modifies this
      ensures Stepped(Set(p), old(page), old(chain))
      ensures page == old(page)[p := old(page)[p].(referenced := true)] && chain == AfterCount(old(chain), page[p].chain, 1)
    {
      hide Members, Referenced, Elements, Excess, ChainOk;
      NoNegativeExcess(page, chain);
      Update(p, page[p].(referenced := true), 1);
    }

    /** ClearPageReferenced. */
    method ClearPageReferenced(p: nat)
      requires Valid() && p in page
      modifies this
      ensures Stepped(Clear(p), old(page), old(chain))
      ensures page == old(page)[p := old(page)[p].(referenced := false)]
      ensures chain == AfterCount(old(chain), page[p].chain, 0 - Bit(old(page)[p].referenced))
    {
      hide Members, Referenced, Elements, Excess, ChainOk;
      NoNegativeExcess(page, chain);
      Update(p, page[p].(referenced := false), 0 - Bit(page[p].referenced));
    }

    /** TestClearPageReferenced answers for the whole chain: it is false only if no member was
        referenced once the page's own bit is gone, and that bit was not set either. */
    method TestClearPageReferenced(p: nat) returns (v: bool)
      requires Valid() && p in page
      modifies this
      ensures Stepped(TestClear(p), old(page), old(chain))
      ensures page == old(page)[p := old(page)[p].(referenced := false)]
      ensures chain == AfterCount(old(chain), page[p].chain, 0 - Bit(old(page)[p].referenced))
      ensures v <==> old(page)[p].referenced || PageReferenced(page, chain, p)
      ensures page[p].chain.None? ==> (v <==> old(page)[p].referenced)
      ensures page[p].chain.Some? ==> var c := page[p].chain.value;
        c in old(chain) && (v <==> SomeReferenced(old(page), c) || Excess(old(page), c, old(chain)[c]) > 0)
    {
      hide Members, Referenced, Elements, Excess, ChainOk, RolesOk, SomeReferenced;
      ghost var page0, chain0 := page, chain;
      v := page[p].referenced;
      ClearPageReferenced(p);
      if page[p].chain.Some? {
        v := v || chain[page[p].chain.value].refCounter != 0;
      }
      TestClearIff(page0, chain0, page, chain, p, v);
    }

    /** The counter of p's chain becomes the number of links and p its delegate. */
    method Charge(p: nat)
      requires Valid() && p in page
      modifies `chain
      ensures Valid() && chain.Keys == old(chain).Keys
      ensures page[p].chain.Some? ==> var c := page[p].chain.value;
        chain[c].delegate == Some(p) && chain[c].refCounter > 0
      ensures forall k :: k in chain ==> Excess(page, k, chain[k]) == ExcessAfter(Mark(p), page, old(chain), k)
    {
      hide Members, Referenced, Elements, Excess, ChainOk;
      if page[p].chain.Some? {
        var c := page[p].chain.value;
        ChargeTable(page, chain, c, p);
        chain := chain[c := chain[c].(refCounter := chain[c].nrLinks, delegate := Some(p))];
      }
    }

    /** activate_page followed by ClearPageReferenced. */
    method Activate(p: nat)
      requires Valid() && p in page
      modifies this
      ensures Valid() && page == old(page)[p := old(page)[p].(active := true, referenced := false)]
      ensures chain == AfterCount(old(chain), page[p].chain, 0 - Bit(old(page)[p].referenced))
      ensures forall k :: k in chain ==> Excess(page, k, chain[k]) == Excess(old(page), k, old(chain)[k])
    {
      hide Members, Referenced, Elements, Excess, ChainOk;
      NoNegativeExcess(page, chain);
      Update(p, page[p].(active := true, referenced := false), 0 - Bit(page[p].referenced));
    }

    /** mark_page_accessed: the counter is set before the bit is looked at. */
    method MarkPageAccessed(p: nat)
      requires Valid() && p in page
      modifies this
      ensures Stepped(Mark(p), old(page), old(chain)) && PageMarked(old(page), page, p) && chain.Keys == old(chain).Keys
      ensures page[p].chain.Some? ==> chain[page[p].chain.value].delegate == Some(p)
    {
      hide Members, Referenced, Elements, Excess, ChainOk, Minus, ChainWithout, ChainWith, Toggle;
      Charge(p);
      if !page[p].active && !page[p].unevictable && PageReferenced(page, chain, p) && page[p].lru {
        if page[p].chain.Some? && !page[p].referenced {
          SetPageReferenced(p);
        }
        Activate(p);
      } else if !page[p].referenced {
        SetPageReferenced(p);
      }
    }

    /** free_pages_check clears the flags of a page, its referenced bit among them, and only then
        free_pages_prepare unlinks the page; so the chain keeps the reference. */
    method FreePage(p: nat)
      requires Valid() && p in page
      modifies this
      ensures Stepped(Free(p), old(page), old(chain)) && page == old(page)[p := Page(None, false, false, false, false)]
      ensures chain.Keys == old(chain).Keys
      ensures old(page)[p].chain.Some? ==> var c := old(page)[p].chain.value;
        c in old(chain) && chain == old(chain)[c := ChainWithout(old(chain)[c], p, false)]
    {
      hide Members, Referenced, Elements, Excess, ChainOk;
      NoNegativeExcess(page, chain);
      Update(p, Page(page[p].chain, false, false, false, false), 0);
      UnlinkPage(p);
    }

    /** __unlink_page. */
    method UnlinkPage(p: nat)
      requires Valid() && p in page
      modifies this
      ensures Valid() && page == old(page)[p := old(page)[p].(chain := None)]
      ensures chain == AfterUnlink(old(page), old(chain), p)
      ensures old(page)[p].chain.Some? ==> var k := old(page)[p].chain.value;
        var was, now := old(chain)[k], chain[k];
        && now.links == Minus(was.links, p)
        && now.anchor == (if was.anchor == Some(p) then None else was.anchor)
        && now.delegate == (if was.delegate == Some(p) then None else was.delegate)
      ensures forall k :: k in chain ==> Excess(page, k, chain[k]) == Excess(old(page), k, old(chain)[k])
    {
      hide Members, Referenced, Elements, Excess, Minus;
      ghost var page0, chain0 := page, chain;
      if page[p].chain.Some? {
        var c := page[p].chain.value;
        var ch := chain[c];
        ch := ch.(links := Minus(ch.links, p));
        if ch.anchor == Some(p) { ch := ch.(anchor := None); }
        if ch.delegate == Some(p) { ch := ch.(delegate := None); }
        ch := ch.(nrLinks := ch.nrLinks - 1);
        if page[p].referenced { ch := ch.(refCounter := ch.refCounter - 1); }
        assert ch == ChainWithout(chain0[c], p, page[p].referenced);
        chain := chain[c := ch];
        page := page[p := page[p].(chain := None)];
        UnlinkTable(page0, chain0, p);
      } else {
        assert page[p].(chain := None) == page[p];
      }
    }

    /** __link_page. No chain is ever full: MEMORY_CHAIN_IS_FULL needs attributes and none are set. */
    method LinkPage(c: nat, p: nat)
      requires Valid() && p in page && c in chain
      modifies this
      ensures Valid() && page == old(page)[p := old(page)[p].(chain := Some(c))]
      ensures old(page)[p].chain == Some(c) ==> chain == old(chain)
      ensures old(page)[p].chain != Some(c) ==>
        c in chain && chain[c].links == [p] + old(chain)[c].links && chain[c].anchor == old(chain)[c].anchor && chain[c].delegate == old(chain)[c].delegate
      ensures old(page)[p].chain != Some(c) ==>
        chain == AfterUnlink(old(page), old(chain), p)[c := ChainWith(old(chain)[c], p, page[p].referenced)]
      ensures forall k :: k in chain ==> Excess(page, k, chain[k]) == Excess(old(page), k, old(chain)[k])
    {
      hide Members, Referenced, Elements, Excess, Minus, ChainWithout, ChainOk, TableOk;
      if page[p].chain == Some(c) {
        assert page[p].(chain := Some(c)) == page[p];
        return;
      }
      UnlinkPage(p);
      ghost var page0, chain0 := page, chain;
      assert chain0[c] == old(chain)[c];
      var ch := chain[c];
      page := page[p := page[p].(chain := Some(c))];
      ch := ch.(links := [p] + ch.links);
      ch := ch.(nrLinks := ch.nrLinks + 1);
      if page[p].referenced { ch := ch.(refCounter := ch.refCounter + 1); }
      chain := chain[c := ch];
      assert ch == ChainWith(chain0[c], p, page0[p].referenced);
      LinkTable(page0, chain0, c, p);
    }

    /** __unlink_chain: the loop detaches page after page, clearing referenced bits; then the chain
        itself is reset. */
    method UnlinkChain(c: nat)
      requires Valid() && c in chain
      modifies this
      ensures Valid() && page == Detached(old(page), Members(old(page), c))
      ensures forall p :: p in page ==>
        page[p] == if old(page)[p].chain == Some(c) then old(page)[p].(chain := None, referenced := false) else old(page)[p]
      ensures chain == old(chain)[c := Chain([], 0, 0, None, None)]
      ensures forall k :: k in chain ==> Excess(page, k, chain[k]) == if k == c then 0 else Excess(old(page), k, old(chain)[k])
    {
      hide Members, Referenced, Detached, Elements;
      ghost var page0, chain0 := page, chain;
      assert ChainOk(page0, c, chain0[c]);
      ghost var members := Members(page0, c);
      var ch := chain[c];
      DetachNone(page0);
      while ch.links != []
        invariant chain == chain0 && Elements(ch.links) <= members && |Elements(ch.links)| == |ch.links|
        invariant page == Detached(page0, members - Elements(ch.links))
        decreases |ch.links|
      {
        var p := ch.links[0];
        DetachStep(page0, c, ch.links);
        ch := ch.(links := ch.links[1..]);
        if page[p].referenced { ch := ch.(refCounter := ch.refCounter - 1); }
        page := page[p := page[p].(chain := None, referenced := false)];
      }
      assert members - Elements(ch.links) == members by { NoElements(); }
      ch := ch.(links := [], anchor := None, delegate := None, nrLinks := 0, refCounter := 0);
      chain := chain[c := ch];
      UnlinkChainTable(page0, chain0, c);
      DetachedAre(page0, c);
    }

    /** rls_mem_chain: break the chain, then free its slot. */
    method ReleaseChain(c: nat)
      requires Valid() && c in chain
      modifies this
      ensures Stepped(Release(c), old(page), old(chain))
      ensures chain == old(chain) - {c} && page == Detached(old(page), Members(old(page), c))
    {
      hide Members, Referenced, Elements, Excess, ChainOk, Detached;
      ghost var page0 := page;
      UnlinkChain(c);
      assert Members(page, c) == {} by { UnlinkChainMembers(page0, c); }
      forall p | p in page
        ensures page[p].chain != Some(c)
      {
        assert p in Members(page, c) <==> page[p].chain == Some(c) by { PageUpdate(page, p, page[p], c); }
      }
      chain := chain - {c};
    }

    /** Any one step; a call that cannot reach its object changes nothing. */
    method Step(op: Op)
      requires Valid()
      modifies this
      ensures Valid() && page.Keys == old(page).Keys
      ensures Enabled(op, old(page), old(chain)) ==> Stepped(op, old(page), old(chain))
      ensures !Enabled(op, old(page), old(chain)) ==> page == old(page) && chain == old(chain)
    {
      hide Members, Referenced, Elements, Excess, ChainOk, Detached;
      if !Enabled(op, page, chain) {
        return;
      }
      match op
      case New(c) => NewChain(c);
      case Link(c, p) => LinkPage(c, p);
      case Unlink(p) => UnlinkPage(p);
      case Break(c) => UnlinkChain(c);
      case Release(c) => ReleaseChain(c);
      case Mark(p) => MarkPageAccessed(p);
      case Set(p) => SetPageReferenced(p);
      case Clear(p) => ClearPageReferenced(p);
      case TestClear(p) => var v := TestClearPageReferenced(p);
      case Free(p) => FreePage(p);
    }

    /** After any run of steps no counter is negative or below the number of referenced members, and
        PageReferenced holds of every member of a chain one of whose members is referenced. */
    method Run(ops: seq<Op>)
      requires Valid()
      modifies this
      ensures Valid() && page.Keys == old(page).Keys
      ensures forall k :: k in chain ==> chain[k].refCounter >= |Referenced(page, k)|
      ensures forall p, q :: p in page && q in page && page[p].chain.Some? && page[p].chain == page[q].chain && page[q].referenced ==>
        PageReferenced(page, chain, p)
    {
      for i := 0 to |ops|
        invariant Valid() && page.Keys == old(page).Keys
      {
        Step(ops[i]);
      }
      assert forall k :: k in chain ==> ChainOk(page, k, chain[k]);
      forall p, q | p in page && q in page && page[p].chain.Some? && page[p].chain == page[q].chain && page[q].referenced
        ensures PageReferenced(page, chain, p)
      {
        ChainProtection(page, chain, p, q);
      }
    }
  }

  lemma UnlinkChainMembers(page: Pages, c: nat)
    ensures Members(Detached(page, Members(page, c)), c) == {}
  {
  }

  /** The counter is not the number of referenced members: setting the same bit twice counts twice. */
  method CountedTwice() returns (t: ChainTable)
    ensures fresh(t) && t.Valid() && t.page.Keys == {7} && t.chain.Keys == {0}
    ensures Excess(t.page, 0, t.chain[0]) == 1 && t.page[7].referenced && t.page[7].chain == Some(0)
  {
    hide Members, Referenced, Elements, Excess, ChainOk, Minus;
    t := new ChainTable({7});
    t.NewChain(0);
    t.LinkPage(0, 7);
    EmptyChain(t.page, t.chain[0]);
    t.SetPageReferenced(7);
    t.SetPageReferenced(7);
  }

  lemma EmptyChain(page: Pages, ch: Chain)
    requires (forall p :: p in page ==> !page[p].referenced) && ch.refCounter == 0
    ensures Excess(page, 0, ch) == 0
  {
    assert Referenced(page, 0) == {};
  }

  /** A chain of two unreferenced pages, one of which is accessed: mark_page_accessed counts both links and
      then the reference, so the counter is too large by two. */
  method CountedLinks() returns (t: ChainTable)
    ensures fresh(t) && t.Valid() && t.page.Keys == {7, 8} && t.chain.Keys == {0}
    ensures Excess(t.page, 0, t.chain[0]) == 2 && t.page[7].referenced && !t.page[8].referenced
    ensures t.page[7].chain == t.page[8].chain == Some(0)
  {
    hide Members, Referenced, Elements, Excess, ChainOk, Minus;
    t := new ChainTable({7, 8});
    t.NewChain(0);
    t.LinkPage(0, 7);
    t.LinkPage(0, 8);
    TwoLinks(t.page);
    t.MarkPageAccessed(7);
  }

  /** A referenced page that is freed leaves its reference behind: free_pages_check clears the bit before the page
      is unlinked. */
  method FreedReferenced() returns (t: ChainTable)
    ensures fresh(t) && t.Valid() && t.page.Keys == {7} && t.chain.Keys == {0}
    ensures Excess(t.page, 0, t.chain[0]) == 1 && !t.page[7].referenced && t.page[7].chain.None?
  {
    hide Members, Referenced, Elements, Excess, ChainOk, Minus;
    t := new ChainTable({7});
    t.NewChain(0);
    t.LinkPage(0, 7);
    EmptyChain(t.page, t.chain[0]);
    t.SetPageReferenced(7);
    t.FreePage(7);
  }

  /** The ladder of mark_page_accessed for an evictable page on an LRU list: unreferenced, referenced, active,
      active and referenced. A page of a chain is activated at the first access. */
  lemma AccessLadder(page0: Pages, page1: Pages, page2: Pages, page3: Pages, p: nat)
    requires p in page0 && page0[p].lru && !page0[p].unevictable && !page0[p].active && !page0[p].referenced
    requires PageMarked(page0, page1, p) && PageMarked(page1, page2, p) && PageMarked(page2, page3, p)
    ensures page0[p].chain.None? ==>
      && !page1[p].active && page1[p].referenced
      && page2[p].active && !page2[p].referenced
      && page3[p].active && page3[p].referenced
    ensures page0[p].chain.Some? ==> page1[p].active && !page1[p].referenced && page2[p].active && page2[p].referenced
  {
  }

  lemma TwoLinks(page: Pages)
    requires page.Keys == {7, 8} && page[7].chain == page[8].chain == Some(0)
    requires !page[7].referenced && !page[8].referenced
    ensures |Members(page, 0)| == 2 && |Referenced(page, 0)| == 0
  {
    assert Members(page, 0) == {7, 8};
    assert Referenced(page, 0) == {};
  }
}
