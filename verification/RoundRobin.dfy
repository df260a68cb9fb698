/** How free_pcppages_bulk shares out the pages to free over the lists of a CPU: round robin, and more
    pages off the next list after each empty one. Only the lengths of the lists matter. */
module RoundRobin {
  import opened Integers
  import opened Sequences

  function Size(lens: seq<nat>): nat
    requires |lens| == 3
  {
    lens[0] + lens[1] + lens[2]
  }

  /** The list k steps after list mt. */
  function Ring(mt: nat, k: nat): (t: nat)
    requires mt < 3 && k <= 3
    ensures t < 3
  {
    if mt + k < 3 then mt + k else mt + k - 3
  }

  /** How far the next list with a page is ahead of list mt. */
  function Ahead(lens: seq<nat>, mt: nat): (k: nat)
    requires |lens| == 3 && mt < 3 && Size(lens) > 0
    ensures 1 <= k <= 3 && lens[Ring(mt, k)] > 0
    ensures (k >= 2 ==> lens[Ring(mt, 1)] == 0) && (k == 3 ==> lens[Ring(mt, 2)] == 0)
  {
    if lens[Ring(mt, 1)] > 0 then 1 else if lens[Ring(mt, 2)] > 0 then 2 else 3
  }

  /** The lengths that are left after toFree more pages, list mt being the last one visited and batch the
      number of pages it still owes. */
  function Left(lens: seq<nat>, mt: nat, batch: nat, toFree: nat): (r: seq<nat>)
    requires |lens| == 3 && mt < 3 && toFree <= Size(lens)
    ensures |r| == 3
    decreases toFree
  {
    if toFree == 0 then lens
    else
      var k := Ahead(lens, mt);
      var t := Ring(mt, k);
      var n := Given(lens[t], batch + k, toFree);
      Left(lens[t := lens[t] - n], t, batch + k - n, toFree - n)
  }

  lemma {:induction false} LeftBounds(lens: seq<nat>, mt: nat, batch: nat, toFree: nat)
    requires |lens| == 3 && mt < 3 && toFree <= Size(lens)
    ensures var r := Left(lens, mt, batch, toFree);
      Size(r) + toFree == Size(lens) && r[0] <= lens[0] && r[1] <= lens[1] && r[2] <= lens[2]
    decreases toFree
  {
    hide Ring, Given, Left;
    if toFree == 0 {
      LeftDone(lens, mt, batch);
    } else {
      var k := Ahead(lens, mt);
      var t := Ring(mt, k);
      var n := Given(lens[t], batch + k, toFree);
      LeftStep(lens, mt, batch, toFree, t, batch + k, n);
      LeftBounds(lens[t := lens[t] - n], t, batch + k - n, toFree - n);
    }
  }

  /** How many pages one visit takes off a list. */
  function Given(len: nat, batch: nat, toFree: nat): (n: nat)
    ensures n <= len && n <= batch && n <= toFree && (n == len || n == batch || n == toFree)
  {
    Min(len, Min(batch, toFree))
  }

  /** What list t gives if all lists give in turn, the one after mt first. */
  function EvenShare(mt: nat, t: nat, toFree: nat): nat
    requires mt < 3 && t < 3
  {
    (toFree + 2 - (if t > mt then t - mt - 1 else t + 2 - mt)) / 3
  }

  lemma EvenStep(mt: nat, t: nat, toFree: nat)
    requires mt < 3 && t < 3 && toFree > 0
    ensures var next := Ring(mt, 1);
      EvenShare(mt, t, toFree) == EvenShare(next, t, toFree - 1) + (if t == next then 1 else 0)
  {
  }

  lemma NoShare(mt: nat, t: nat)
    requires mt < 3 && t < 3
    ensures EvenShare(mt, t, 0) == 0
  {
  }

  lemma FirstShare(mt: nat, toFree: nat)
    requires mt < 3 && toFree > 0
    ensures EvenShare(mt, Ring(mt, 1), toFree) >= 1
  {
  }

  /** As long as no list runs dry the lists share evenly. */
  lemma {:induction false} SharedEvenly(lens: seq<nat>, mt: nat, toFree: nat)
    requires |lens| == 3 && mt < 3 && toFree <= Size(lens)
    requires forall t :: 0 <= t < 3 ==> EvenShare(mt, t, toFree) <= lens[t]
    ensures forall t :: 0 <= t < 3 ==> Left(lens, mt, 0, toFree)[t] == lens[t] - EvenShare(mt, t, toFree)
    decreases toFree
  {
    hide EvenShare, Left;
    if toFree == 0 {
      LeftDone(lens, mt, 0);
      forall t | 0 <= t < 3
        ensures EvenShare(mt, t, 0) == 0
      {
        NoShare(mt, t);
      }
    } else {
      var next := Ring(mt, 1);
      forall t | 0 <= t < 3
        ensures EvenShare(mt, t, toFree) == EvenShare(next, t, toFree - 1) + (if t == next then 1 else 0)
      {
        EvenStep(mt, t, toFree);
      }
      FirstShare(mt, toFree);
      LeftStep(lens, mt, 0, toFree, next, 1, 1);
      SharedEvenly(lens[next := lens[next] - 1], next, toFree - 1);
    }
  }

  /** What an empty list does: the list after it gives two pages whenever the third gives one. */
  lemma {:induction false} TwoToOne(a: nat, b: nat, j: nat)
    requires 2 * j <= a && j <= b
    ensures Left([0, a, b], 2, 0, 3 * j) == [0, a - 2 * j, b - j]
    decreases j
  {
    hide Left;
    if j == 0 {
      LeftDone([0, a, b], 2, 0);
    } else {
      LeftStep([0, a, b], 2, 0, 3 * j, 1, 2, 2);
      assert [0, a, b][1 := a - 2] == [0, a - 2, b];
      LeftStep([0, a - 2, b], 1, 0, 3 * j - 2, 2, 1, 1);
      assert [0, a - 2, b][2 := b - 1] == [0, a - 2, b - 1];
      TwoToOne(a - 2, b - 1, j - 1);
    }
  }

  /** One visit to the next list with a page. */
  lemma LeftStep(lens: seq<nat>, mt: nat, batch: nat, toFree: nat, t: nat, batch': nat, n: nat)
    requires |lens| == 3 && mt < 3 && 0 < toFree <= Size(lens)
    requires var k := Ahead(lens, mt); t == Ring(mt, k) && batch' == batch + k
    requires n == Given(lens[t], batch', toFree)
    ensures n > 0 && Left(lens, mt, batch, toFree) == Left(lens[t := lens[t] - n], t, batch' - n, toFree - n)
  {
    hide Ring, Given;
    var k := Ahead(lens, mt);
    assert n > 0 by { GivenSome(lens[t], batch', toFree); }
  }

  lemma GivenIs(len: nat, batch: nat, toFree: nat, n: nat)
    requires n <= len && n <= batch && n <= toFree && (n == len || n == batch || n == toFree)
    ensures Given(len, batch, toFree) == n
  {
  }

  lemma GivenSome(len: nat, batch: nat, toFree: nat)
    requires len > 0 && batch > 0 && toFree > 0
    ensures Given(len, batch, toFree) > 0
  {
  }

  /** Once all pages are freed what is owed does not matter. */
  lemma LeftDone(lens: seq<nat>, mt: nat, batch: nat)
    requires |lens| == 3 && mt < 3
    ensures Left(lens, mt, batch, 0) == lens
  {
  }

  function Sizes(lists: seq<seq<nat>>): (lens: seq<nat>)
    requires |lists| == 3
    ensures |lens| == 3 && lens[0] == |lists[0]| && lens[1] == |lists[1]| && lens[2] == |lists[2]|
  {
    [|lists[0]|, |lists[1]|, |lists[2]|]
  }

  /** The last n elements, the last one first. */
  function Tail(l: seq<nat>, n: nat): seq<nat>
    requires n <= |l|
  {
    Reverse(l[|l| - n..])
  }

  /** The pages that are freed, in the order in which they are. */
  function Order(lists: seq<seq<nat>>, mt: nat, batch: nat, toFree: nat): (r: seq<nat>)
    requires |lists| == 3 && mt < 3 && toFree <= Size(Sizes(lists))
    decreases toFree
  {
    if toFree == 0 then []
    else
      var k := Ahead(Sizes(lists), mt);
      var t := Ring(mt, k);
      var l := lists[t];
      var n := Given(|l|, batch + k, toFree);
      GivenSome(|l|, batch + k, toFree);
      Tail(l, n) + Order(lists[t := l[..|l| - n]], t, batch + k - n, toFree - n)
  }

  lemma OrderStep(lists: seq<seq<nat>>, mt: nat, batch: nat, toFree: nat, t: nat, batch': nat, n: nat)
    requires |lists| == 3 && mt < 3 && 0 < toFree <= Size(Sizes(lists))
    requires var k := Ahead(Sizes(lists), mt); t == Ring(mt, k) && batch' == batch + k
    requires n == Given(|lists[t]|, batch', toFree)
    ensures n > 0 && toFree - n <= Size(Sizes(lists[t := lists[t][..|lists[t]| - n]]))
    ensures Order(lists, mt, batch, toFree) ==
      Tail(lists[t], n) + Order(lists[t := lists[t][..|lists[t]| - n]], t, batch' - n, toFree - n)
  {
    hide Ring, Given, Tail, Ahead;
    GivenSome(|lists[t]|, batch', toFree);
  }

  lemma OrderDone(lists: seq<seq<nat>>, mt: nat, batch: nat)
    requires |lists| == 3 && mt < 3
    ensures Order(lists, mt, batch, 0) == []
  {
  }

  lemma TailNext(l: seq<nat>, n: nat)
    requires n < |l|
    ensures Tail(l, n + 1) == Tail(l, n) + [l[|l| - n - 1]] && Tail(l, 0) == []
  {
    assert l[|l| - n - 1..][1..] == l[|l| - n..];
  }

  lemma TailLength(l: seq<nat>, n: nat)
    requires n <= |l|
    ensures |Tail(l, n)| == n && forall x :: x in Tail(l, n) <==> x in l[|l| - n..]
  {
    var s := l[|l| - n..];
    forall x | x in s
      ensures x in Reverse(s)
    {
      var i :| 0 <= i < |s| && s[i] == x;
      assert Reverse(s)[|s| - 1 - i] == x;
    }
  }

  /** Every list gives up its tail: what it keeps and what is freed of it are all of it, and nothing else is
      freed. */
  lemma {:induction false} OrderIsTails(lists: seq<seq<nat>>, mt: nat, batch: nat, toFree: nat)
    requires |lists| == 3 && mt < 3 && toFree <= Size(Sizes(lists))
    ensures var r, left := Order(lists, mt, batch, toFree), Left(Sizes(lists), mt, batch, toFree);
      && |r| == toFree
      && left[0] <= |lists[0]| && left[1] <= |lists[1]| && left[2] <= |lists[2]|
      && forall x :: x in r <==> x in lists[0][left[0]..] || x in lists[1][left[1]..] || x in lists[2][left[2]..]
    decreases toFree
  {
    LeftBounds(Sizes(lists), mt, batch, toFree);
    if toFree == 0 {
      OrderDone(lists, mt, batch);
      LeftDone(Sizes(lists), mt, batch);
    } else {
      var k := Ahead(Sizes(lists), mt);
      var t := Ring(mt, k);
      var n := Given(|lists[t]|, batch + k, toFree);
      TailsStep(lists, mt, batch, toFree, t, batch + k, n);
    }
  }

  lemma {:induction false} TailsStep(lists: seq<seq<nat>>, mt: nat, batch: nat, toFree: nat, t: nat, batch': nat, n: nat)
    requires |lists| == 3 && mt < 3 && 0 < toFree <= Size(Sizes(lists))
    requires var k := Ahead(Sizes(lists), mt); t == Ring(mt, k) && batch' == batch + k
    requires n == Given(|lists[t]|, batch', toFree)
    ensures var r, left := Order(lists, mt, batch, toFree), Left(Sizes(lists), mt, batch, toFree);
      && |r| == toFree
      && left[0] <= |lists[0]| && left[1] <= |lists[1]| && left[2] <= |lists[2]|
      && forall x :: x in r <==> x in lists[0][left[0]..] || x in lists[1][left[1]..] || x in lists[2][left[2]..]
    decreases toFree, 0
  {
    hide Order, Left, Tail, Ahead, Ring, Given;
    var l := lists[t];
    var lists' := lists[t := l[..|l| - n]];
    LeftBounds(Sizes(lists), mt, batch, toFree);
    OrderStep(lists, mt, batch, toFree, t, batch', n);
    LeftStep(Sizes(lists), mt, batch, toFree, t, batch', n);
    assert Sizes(lists') == Sizes(lists)[t := |l| - n];
    OrderIsTails(lists', t, batch' - n, toFree - n);
    TailLength(l, n);
    var left := Left(Sizes(lists), mt, batch, toFree);
    TailSplit(l, n, left[t]);
    assert forall u :: 0 <= u < 3 && u != t ==> lists'[u] == lists[u];
    assert lists'[t] == l[..|l| - n];
  }

  lemma TailSplit(l: seq<nat>, n: nat, m: nat)
    requires n <= |l| && m <= |l| - n
    ensures forall x :: x in l[m..] <==> x in l[..|l| - n][m..] || x in l[|l| - n..]
  {
    assert l[m..] == l[..|l| - n][m..] + l[|l| - n..];
  }
}
