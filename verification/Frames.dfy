/** Physical memory and the page table (HierarchicalMemoryManager/src/mem/Memory.java, PageTable.java). */
module Frames {
  import opened MemoryChains
  import opened Sequences

  /** {0, ..., n - 1}. */
  ghost function Range(n: nat): (r: set<nat>)
    ensures |r| == n && forall i :: i in r <==> 0 <= i < n
  {
    if n == 0 then {} else Range(n - 1) + {n - 1}
  }

  lemma CountBelow(s: set<nat>, n: nat)
    requires forall i :: i in s ==> i < n
    ensures |s| <= n
    ensures |s| < n <==> exists i: nat :: i < n && i !in s
  {
    var r := Range(n);
    assert s + (r - s) == r;
    if |s| < n {
      assert r - s != {};
      var i :| i in r - s;
      assert i < n && i !in s;
    }
    if i: nat :| i < n && i !in s {
      assert i in r - s;
    }
  }

  /** The frames of some of the addresses. */
  ghost function Image(m: map<int, nat>, ks: set<int>): (r: set<nat>)
    requires ks <= m.Keys
    ensures forall f :: f in r <==> exists a :: a in ks && m[a] == f
  {
    set a | a in ks :: m[a]
  }

  lemma {:induction false} ImageSize(m: map<int, nat>, ks: set<int>)
    requires ks <= m.Keys && forall a, b :: a in m && b in m && a != b ==> m[a] != m[b]
    ensures |Image(m, ks)| == |ks|
  {
    if a :| a in ks {
      ImageSize(m, ks - {a});
      forall f
        ensures f in Image(m, ks) <==> f == m[a] || f in Image(m, ks - {a})
      {
        if b :| b in ks && m[b] == f {
          assert b != a ==> b in ks - {a};
        }
      }
      assert Image(m, ks) == Image(m, ks - {a}) + {m[a]};
      assert m[a] !in Image(m, ks - {a});
    } else {
      var none: set<int>, nothing: set<nat> := {}, {};
      assert forall x :: x in ks <==> x in none;
      assert forall f :: f in Image(m, ks) <==> f in nothing;
      assert ks == none && Image(m, ks) == nothing;
    }
  }

  lemma SameSize(a: set<nat>, b: set<nat>)
    requires a <= b && |a| == |b|
    ensures a == b
  {
    var rest := b - a;
    assert b == a + rest && |rest| == 0;
  }

  class PageTable {
    var mapping: map<int, nat>

    constructor ()
      ensures mapping == map[]
    {
      mapping := map[];
    }

    method Add(address: int, frame: nat)
      modifies this
      ensures mapping == old(mapping)[address := frame]
    {
      mapping := mapping[address := frame];
    }

    method Remove(address: int)
      modifies this
      ensures mapping == old(mapping) - {address}
    {
      mapping := mapping - {address};
    }

    function Lookup(address: int): (frame: int)
      reads this
      ensures frame == -1 <==> address !in mapping
      ensures address in mapping ==> frame == mapping[address]
    {
      if address in mapping then mapping[address] else -1
    }
  }

  /** bitmap holds the numbers of the occupied frames. */
  class Memory {
    const pages: array<Page?>
    var bitmap: set<nat>

    ghost predicate Valid()
      reads this, pages
    {
      && (forall f :: f in bitmap ==> f < pages.Length)
      && (forall f :: 0 <= f < pages.Length ==> (f in bitmap <==> pages[f] != null))
    }

    constructor (size: nat)
      ensures Valid() && fresh(pages) && pages.Length == size && bitmap == {}
    {
      pages := new Page?[size](_ => null);
      bitmap := {};
    }

    /** Puts a page, or nothing, into a frame. */
    method Store(page: Page?, frame: nat) returns (swapped: Page?)
      requires Valid() && frame < pages.Length
      modifies `bitmap, pages, (if page == null then {} else {page})`frame
      ensures Valid() && pages[..] == old(pages[..])[frame := page]
      ensures bitmap == if page == null then old(bitmap) - {frame} else old(bitmap) + {frame}
      ensures page != null ==> page.frame == frame
      ensures swapped == if old(pages[frame]) == page then null else old(pages[frame])
    {
      swapped := pages[frame];
      if page != null {
        page.frame := frame;
      }
      pages[frame] := page;
      bitmap := if page != null then bitmap + {frame} else bitmap - {frame};
      swapped := if page == swapped then null else swapped;
    }

    function Load(frame: nat): (page: Page?)
      requires frame < pages.Length
      reads this, pages
      ensures frame !in bitmap ==> page == null
    {
      if frame in bitmap then pages[frame] else null
    }

    /** The first frame that is not occupied, -1 if there is none. */
    method FreeFrame() returns (frame: int)
      requires Valid()
      ensures frame == -1 <==> |bitmap| == pages.Length
      ensures frame != -1 ==> 0 <= frame < pages.Length && frame !in bitmap && forall f :: 0 <= f < frame ==> f in bitmap
    {
      CountBelow(bitmap, pages.Length);
      if |bitmap| < pages.Length {
        ghost var clear: nat :| clear < pages.Length && clear !in bitmap;
        frame := 0;
        while frame in bitmap
          invariant 0 <= frame <= clear
          invariant forall f :: 0 <= f < frame ==> f in bitmap
          decreases clear - frame
        {
          frame := frame + 1;
        }
      } else {
        frame := -1;
      }
    }
  }
}
