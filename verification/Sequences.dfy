/** Sequences without repetition, as the free lists, the page lists and the chains hold them. */
module Sequences {
  ghost function Elements<T>(s: seq<T>): set<T> {
    set x | x in s
  }

  predicate Distinct<T(==)>(s: seq<T>) {
    forall i, j :: 0 <= i < j < |s| ==> s[i] != s[j]
  }

  /** s without the element at position i. */
  function Cut<T>(s: seq<T>, i: nat): (r: seq<T>)
    requires i < |s|
    ensures |r| == |s| - 1
    ensures forall j :: 0 <= j < |r| ==> r[j] == if j < i then s[j] else s[j + 1]
  {
    s[..i] + s[i + 1..]
  }

  lemma CutKeeps<T>(s: seq<T>, i: nat)
    requires i < |s| && Distinct(s)
    ensures Distinct(Cut(s, i)) && |Cut(s, i)| == |s| - 1
    ensures forall j :: 0 <= j < |s| - 1 ==> Cut(s, i)[j] == (if j < i then s[j] else s[j + 1]) && Cut(s, i)[j] != s[i]
  {
  }

  lemma CutTail<T>(s: seq<T>, i: nat)
    requires i < |s| && Distinct(s)
    ensures if i == 0 then Cut(s, 0) == s[1..] else
      Distinct(s[1..]) && s[1..][i - 1] == s[i] && s[0] != s[i] && Cut(s, i) == [s[0]] + Cut(s[1..], i - 1)
  {
  }

  lemma CutElements<T>(s: seq<T>, i: nat)
    requires i < |s| && Distinct(s)
    ensures Distinct(Cut(s, i)) && forall x :: x in Cut(s, i) <==> x in s && x != s[i]
  {
    CutKeeps(s, i);
    forall x | x in s && x != s[i]
      ensures x in Cut(s, i)
    {
      var j :| 0 <= j < |s| && s[j] == x;
      assert Cut(s, i)[if j < i then j else j - 1] == x;
    }
  }

  /** s without x. */
  function Minus<T(==)>(s: seq<T>, x: T): (r: seq<T>) {
    if s == [] then [] else if s[0] == x then s[1..] else [s[0]] + Minus(s[1..], x)
  }

  lemma {:induction false} MinusIsCut<T>(s: seq<T>, i: nat)
    requires Distinct(s) && i < |s|
    ensures Minus(s, s[i]) == Cut(s, i)
  {
    hide Distinct;
    CutTail(s, i);
    if i > 0 {
      MinusIsCut(s[1..], i - 1);
    }
  }

  lemma MinusElements<T>(s: seq<T>, x: T)
    requires Distinct(s)
    ensures Distinct(Minus(s, x)) && forall y :: y in Minus(s, x) <==> y in s && y != x
  {
    hide Distinct, Minus, Cut;
    if x in s {
      var i :| 0 <= i < |s| && s[i] == x;
      MinusIsCut(s, i);
      CutElements(s, i);
    } else {
      MinusAbsent(s, x);
    }
  }

  lemma {:induction false} MinusAbsent<T>(s: seq<T>, x: T)
    requires x !in s
    ensures Minus(s, x) == s
  {
    if s != [] {
      MinusAbsent(s[1..], x);
    }
  }

  lemma {:induction false} MinusLast<T>(s: seq<T>)
    requires Distinct(s) && s != []
    ensures Minus(s, s[|s| - 1]) == s[..|s| - 1]
  {
    MinusIsCut(s, |s| - 1);
  }

  function Reverse<T>(s: seq<T>): (r: seq<T>)
    ensures |r| == |s| && forall i :: 0 <= i < |s| ==> r[i] == s[|s| - 1 - i]
  {
    if s == [] then [] else Reverse(s[1..]) + [s[0]]
  }

  lemma {:induction false} ReverseSnoc<T>(s: seq<T>, x: T)
    ensures Reverse(s + [x]) == [x] + Reverse(s)
  {
    if s == [] {
      assert [x][1..] == [];
    } else {
      ReverseSnoc(s[1..], x);
      assert (s + [x])[1..] == s[1..] + [x];
    }
  }
}
