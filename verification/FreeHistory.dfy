/** Whole histories of frees and allocations, and what the blocks may depend on. */
module FreeHistory {
  import opened Bits
  import opened Blocks

  /** One completed call that frees the run (h, o), or that takes a run of order o from the
      free block headed by h, whatever the order of that block. */
  datatype Op = Free(h: nat, o: nat) | Take(h: nat, o: nat)

  /** Freed runs are aligned and not free yet; blocks taken are free and large enough. */
  ghost predicate Legal(b: BlockMap, op: Op, maxOrder: nat) {
    match op
    case Free(h, o) => o < maxOrder && Aligned(h, o) && Run(h, o) !! FreePages(b)
    case Take(h, o) => h in b && o <= b[h]
  }

  function Step(b: BlockMap, op: Op, maxOrder: nat): BlockMap
    requires op.Take? ==> op.h in b && op.o <= b[op.h]
  {
    match op
    case Free(h, o) => Coalesce(b, h, o, maxOrder)
    case Take(h, o) => Allocate(b, h, o)
  }

  ghost predicate LegalRun(b: BlockMap, ops: seq<Op>, maxOrder: nat)
    decreases |ops|
  {
    |ops| > 0 ==> Legal(b, ops[0], maxOrder) && LegalRun(Step(b, ops[0], maxOrder), ops[1..], maxOrder)
  }

  ghost function After(b: BlockMap, ops: seq<Op>, maxOrder: nat): BlockMap
    requires LegalRun(b, ops, maxOrder)
    decreases |ops|
  {
    if |ops| == 0 then b else After(Step(b, ops[0], maxOrder), ops[1..], maxOrder)
  }

  /** The free pages a history leaves, computed on page sets only. */
  ghost function PagesAfter(free: set<nat>, ops: seq<Op>): set<nat>
    decreases |ops|
  {
    if |ops| == 0 then free
    else PagesAfter(if ops[0].Free? then free + Run(ops[0].h, ops[0].o) else free - Run(ops[0].h, ops[0].o), ops[1..])
  }

  /** Every history keeps the blocks canonical and frees exactly the pages it should. */
  lemma {:induction false} RunCanonical(b: BlockMap, ops: seq<Op>, maxOrder: nat)
    requires Canonical(b, maxOrder) && LegalRun(b, ops, maxOrder)
    ensures Canonical(After(b, ops, maxOrder), maxOrder)
    ensures FreePages(After(b, ops, maxOrder)) == PagesAfter(FreePages(b), ops)
    decreases |ops|
  {
    hide FreePages, Canonical, Coalesce, Allocate;
    if |ops| > 0 {
      match ops[0] {
        case Free(h, o) => CoalesceCanonical(b, h, o, maxOrder);
        case Take(h, o) => AllocateCanonical(b, h, o, maxOrder);
      }
      RunCanonical(Step(b, ops[0], maxOrder), ops[1..], maxOrder);
    }
  }

  /** The blocks depend on nothing but which pages are free: two histories, of any length, order
      and choice of blocks, that leave the same pages free leave the same blocks. */
  lemma HistoryIndependence(b: BlockMap, ops: seq<Op>, b': BlockMap, ops': seq<Op>, maxOrder: nat)
    requires Canonical(b, maxOrder) && LegalRun(b, ops, maxOrder)
    requires Canonical(b', maxOrder) && LegalRun(b', ops', maxOrder)
    requires PagesAfter(FreePages(b), ops) == PagesAfter(FreePages(b'), ops')
    ensures After(b, ops, maxOrder) == After(b', ops', maxOrder)
  {
    hide FreePages, Canonical, LegalRun, PagesAfter;
    RunCanonical(b, ops, maxOrder);
    RunCanonical(b', ops', maxOrder);
    CanonicalUnique(After(b, ops, maxOrder), After(b', ops', maxOrder), maxOrder);
  }

  /** The pages of a batch of runs. */
  ghost function PagesOf(runs: seq<(nat, nat)>): set<nat> {
    if |runs| == 0 then {} else Run(runs[0].0, runs[0].1) + PagesOf(runs[1..])
  }

  lemma {:induction false} PagesOfMember(runs: seq<(nat, nat)>, x: (nat, nat))
    requires x in runs
    ensures Run(x.0, x.1) <= PagesOf(runs)
  {
    if x != runs[0] { PagesOfMember(runs[1..], x); }
  }

  lemma {:induction false} PagesOfOwner(runs: seq<(nat, nat)>, p: nat) returns (x: (nat, nat))
    requires p in PagesOf(runs)
    ensures x in runs && p in Run(x.0, x.1)
  {
    x := runs[0];
    if p !in Run(x.0, x.1) { x := PagesOfOwner(runs[1..], p); }
  }

  lemma PagesOfPermutation(runs: seq<(nat, nat)>, runs': seq<(nat, nat)>)
    requires multiset(runs) == multiset(runs')
    ensures PagesOf(runs) <= PagesOf(runs')
  {
    hide Run;
    forall p | p in PagesOf(runs)
      ensures p in PagesOf(runs')
    {
      var x := PagesOfOwner(runs, p);
      assert x in multiset(runs);
      PagesOfMember(runs', x);
    }
  }

  function Frees(runs: seq<(nat, nat)>): seq<Op> {
    seq(|runs|, i requires 0 <= i < |runs| => Free(runs[i].0, runs[i].1))
  }

  lemma {:induction false} PagesAfterFrees(free: set<nat>, runs: seq<(nat, nat)>)
    ensures PagesAfter(free, Frees(runs)) == free + PagesOf(runs)
    decreases |runs|
  {
    if |runs| > 0 {
      assert Frees(runs)[1..] == Frees(runs[1..]);
      PagesAfterFrees(free + Run(runs[0].0, runs[0].1), runs[1..]);
    }
  }

  /** The order in which runs are freed cannot matter. */
  lemma FreeOrderIrrelevant(b: BlockMap, runs: seq<(nat, nat)>, runs': seq<(nat, nat)>, maxOrder: nat)
    requires Canonical(b, maxOrder) && multiset(runs) == multiset(runs')
    requires LegalRun(b, Frees(runs), maxOrder) && LegalRun(b, Frees(runs'), maxOrder)
    ensures After(b, Frees(runs), maxOrder) == After(b, Frees(runs'), maxOrder)
  {
    hide FreePages, Canonical, LegalRun, PagesAfter, PagesOf;
    PagesAfterFrees(FreePages(b), runs);
    PagesAfterFrees(FreePages(b), runs');
    PagesOfPermutation(runs, runs');
    PagesOfPermutation(runs', runs);
    HistoryIndependence(b, Frees(runs), b, Frees(runs'), maxOrder);
  }
}
