/** Where the free lists link the blocks of a range of pages after these have been moved to the lists of
    another migrate type. */
module Migration {
  import opened Bits
  import opened Blocks
  import opened FreeLists
  import opened Sequences

  /** The heads of order k in lo .. hi, the last one first. */
  function HeadsDown(b: BlockMap, k: nat, lo: nat, hi: nat): (r: seq<nat>)
    ensures forall x :: x in r ==> lo <= x < hi
    decreases hi
  {
    if hi <= lo then []
    else if IsBlock(b, hi - 1, k) then [hi - 1] + HeadsDown(b, k, lo, hi - 1)
    else HeadsDown(b, k, lo, hi - 1)
  }

  /** The elements of a list that lie outside lo .. hi. */
  function Outside(l: seq<nat>, lo: nat, hi: nat): (r: seq<nat>)
    ensures forall x :: x in r ==> x in l && !(lo <= x < hi)
  {
    if l == [] then [] else (if lo <= l[0] < hi then [] else [l[0]]) + Outside(l[1..], lo, hi)
  }

  /** A list of order k: the moved blocks leave it, or come first on it if it is the one they move to. */
  function MovedList(l: seq<nat>, b: BlockMap, k: nat, lo: nat, hi: nat, target: bool): seq<nat> {
    (if target then HeadsDown(b, k, lo, hi) else []) + Outside(l, lo, hi)
  }

  /** The free lists after every block headed in lo .. hi moved to type mt: the moved blocks come first,
      later ones before earlier ones, and all other blocks keep their places. */
  ghost predicate ListsAfterMove(before: FreeAreas, after: FreeAreas, b: BlockMap, maxOrder: nat, lo: nat, hi: nat, mt: nat) {
    && Shaped(before, maxOrder) && Shaped(after, maxOrder)
    && (forall k :: 0 <= k < maxOrder ==> after[k].nrFree == before[k].nrFree)
    && forall k: nat, t: nat :: k < maxOrder && t < MIGRATE_TYPES ==>
         after[k].lists[t] == MovedList(before[k].lists[t], b, k, lo, hi, t == mt)
  }

  lemma {:induction false} OutsideNothing(l: seq<nat>, lo: nat)
    ensures Outside(l, lo, lo) == l
  {
    if l != [] {
      OutsideNothing(l[1..], lo);
    }
  }

  /** Pages that are on no list do not matter. */
  lemma {:induction false} OutsideSkip(l: seq<nat>, lo: nat, hi: nat, next: nat)
    requires hi <= next && forall x :: x in l ==> !(hi <= x < next)
    ensures Outside(l, lo, next) == Outside(l, lo, hi)
  {
    if l != [] {
      assert l[0] in l && forall x :: x in l[1..] ==> x in l;
      OutsideSkip(l[1..], lo, hi, next);
    }
  }

  lemma WithoutFirst(x: nat, lo: nat, h: nat)
    requires lo <= h
    ensures Without(if lo <= x < h then [] else [x], h) == if lo <= x < h + 1 then [] else [x]
  {
    if x == h {
      assert [x][1..] == [];
    } else {
      assert x !in [] && h !in [x];
    }
  }

  lemma {:induction false} OutsideStep(l: seq<nat>, lo: nat, h: nat)
    requires lo <= h
    ensures Without(Outside(l, lo, h), h) == Outside(l, lo, h + 1)
  {
    if l != [] {
      OutsideStep(l[1..], lo, h);
      var first := if lo <= l[0] < h then [] else [l[0]];
      WithoutSum(first, Outside(l[1..], lo, h), h);
      WithoutFirst(l[0], lo, h);
    }
  }

  lemma {:induction false} WithoutSum(s: seq<nat>, t: seq<nat>, x: nat)
    ensures Without(s + t, x) == Without(s, x) + Without(t, x)
  {
    if s == [] {
      assert s + t == t;
    } else {
      assert (s + t)[1..] == s[1..] + t;
      WithoutSum(s[1..], t, x);
    }
  }

  lemma {:induction false} DownSkip(b: BlockMap, k: nat, lo: nat, hi: nat, next: nat)
    requires lo <= hi <= next && forall h :: h in b ==> !(hi <= h < next)
    ensures HeadsDown(b, k, lo, next) == HeadsDown(b, k, lo, hi)
    decreases next
  {
    if hi < next {
      DownSkip(b, k, lo, hi, next - 1);
    }
  }

  /** HeadsDown lists exactly the heads of order k in the range, in decreasing order. */
  lemma {:induction false} HeadsDownAre(b: BlockMap, k: nat, lo: nat, hi: nat)
    ensures var r := HeadsDown(b, k, lo, hi);
      && (forall x :: x in r <==> lo <= x < hi && IsBlock(b, x, k))
      && forall i, j :: 0 <= i < j < |r| ==> r[i] > r[j]
    decreases hi
  {
    if lo < hi {
      HeadsDownAre(b, k, lo, hi - 1);
      var rest := HeadsDown(b, k, lo, hi - 1);
      assert forall j :: 0 <= j < |rest| ==> rest[j] in rest;
    }
  }

  lemma MoveStart(fa: FreeAreas, b: BlockMap, maxOrder: nat, lo: nat, mt: nat)
    requires Shaped(fa, maxOrder)
    ensures ListsAfterMove(fa, fa, b, maxOrder, lo, lo, mt)
  {
    forall k: nat, t: nat | k < maxOrder && t < MIGRATE_TYPES
      ensures MovedList(fa[k].lists[t], b, k, lo, lo, t == mt) == fa[k].lists[t]
    {
      OutsideNothing(fa[k].lists[t], lo);
    }
  }

  lemma MoveSkip(fa0: FreeAreas, fa: FreeAreas, b: BlockMap, typ0: map<nat, nat>, maxOrder: nat, lo: nat, hi: nat, next: nat, mt: nat)
    requires Linked(fa0, b, typ0, maxOrder) && lo <= hi <= next && forall h :: h in b ==> !(hi <= h < next)
    ensures ListsAfterMove(fa0, fa, b, maxOrder, lo, next, mt) <==> ListsAfterMove(fa0, fa, b, maxOrder, lo, hi, mt)
  {
    hide Outside, HeadsDown, Distinct;
    forall k: nat, t: nat | k < maxOrder && t < MIGRATE_TYPES
      ensures MovedList(fa0[k].lists[t], b, k, lo, next, t == mt) == MovedList(fa0[k].lists[t], b, k, lo, hi, t == mt)
    {
      OutsideSkip(fa0[k].lists[t], lo, hi, next);
      DownSkip(b, k, lo, hi, next);
    }
  }

  /** One list when the block h moves. */
  lemma MovedListStep(l: seq<nat>, b: BlockMap, k: nat, lo: nat, h: nat, target: bool)
    requires lo <= h && h in b && (h in l ==> b[h] == k)
    ensures var was, now := MovedList(l, b, k, lo, h, target), MovedList(l, b, k, lo, h + 1, target);
      now == if b[h] != k then was else (if target then [h] else []) + Without(was, h)
  {
    if b[h] == k {
      var down := if target then HeadsDown(b, k, lo, h) else [];
      WithoutSum(down, Outside(l, lo, h), h);
      OutsideStep(l, lo, h);
      assert h !in down && Without(down, h) == down;
    } else {
      OutsideSkip(l, lo, h, h + 1);
    }
  }

  /** The step of move_freepages for the block h. */
  lemma MoveStep(fa0: FreeAreas, fa: FreeAreas, b: BlockMap, typ0: map<nat, nat>, maxOrder: nat, lo: nat, h: nat, mt: nat)
    requires Linked(fa0, b, typ0, maxOrder) && ListsAfterMove(fa0, fa, b, maxOrder, lo, h, mt)
    requires lo <= h && h in b && b[h] < maxOrder && mt < MIGRATE_TYPES
    ensures ListsAfterMove(fa0, Push(Delete(fa, b[h], h), b[h], mt, h, false), b, maxOrder, lo, h + 1, mt)
  {
    hide Outside, HeadsDown, Distinct, MovedList, Without;
    var o := b[h];
    var fa1 := Push(Delete(fa, o, h), o, mt, h, false);
    forall k: nat, t: nat | k < maxOrder && t < MIGRATE_TYPES
      ensures fa1[k].lists[t] == MovedList(fa0[k].lists[t], b, k, lo, h + 1, t == mt)
    {
      MovedListStep(fa0[k].lists[t], b, k, lo, h, t == mt);
    }
  }
}
