/**
 * The array-backed binary min-heap used for top-K selection. It holds
 * `[score, name]` pairs and orders them by score only; names are ignored.
 *
 * The JavaScript array grows and shrinks, so it is modelled as a sequence field
 * that the methods reassign; sifting swaps two positions at a time, as the
 * original does.
 */
module Heap {
  import opened Keys
  import opened Wrappers

  /** Index of the parent of position `i`: `Math.floor((i - 1) / 2)`. */
  function Parent(i: int): int
    requires i > 0
  {
    (i - 1) / 2
  }

  /** The heap property: `data[parent][0] <= data[child][0]` for every child. */
  predicate IsMinHeap(s: seq<Key>)
  {
    forall i :: 0 < i < |s| ==> s[Parent(i)].score <= s[i].score
  }

  /** The heap property at every edge except the one from `i` up to its parent. */
  predicate HeapExceptUp(s: seq<Key>, i: int)
  {
    forall j :: 0 < j < |s| && j != i ==> s[Parent(j)].score <= s[j].score
  }

  /** The heap property at every edge except those from `i` down to its children. */
  predicate HeapExceptDown(s: seq<Key>, i: int)
  {
    forall j :: 0 < j < |s| && Parent(j) != i ==> s[Parent(j)].score <= s[j].score
  }

  /** The parent of `i` is no larger than the children of `i` (trivially true at the root). */
  predicate Bridged(s: seq<Key>, i: int)
    requires 0 <= i < |s|
  {
    i > 0 ==> forall c :: 0 < c < |s| && Parent(c) == i ==> s[Parent(i)].score <= s[c].score
  }

  /** Exchange two positions, as the destructuring swap `[a[i], a[j]] = [a[j], a[i]]`. */
  function Swap(s: seq<Key>, i: int, j: int): (r: seq<Key>)
    requires 0 <= i < |s| && 0 <= j < |s|
    ensures |r| == |s| && r[i] == s[j] && r[j] == s[i]
    ensures forall k :: 0 <= k < |s| && k != i && k != j ==> r[k] == s[k]
    ensures multiset(r) == multiset(s)
  {
    s[i := s[j]][j := s[i]]
  }

  /** In a heap, the root has the minimal score. */
  lemma {:induction false} HeapRootIsMin(s: seq<Key>, i: int)
    requires IsMinHeap(s) && 0 <= i < |s|
    ensures s[0].score <= s[i].score
    decreases i
  {
    if i > 0 {
      HeapRootIsMin(s, Parent(i));
    }
  }

  lemma HeapRootIsMinAll(s: seq<Key>)
    requires IsMinHeap(s) && |s| > 0
    ensures forall y :: y in s ==> s[0].score <= y.score
  {
    forall y | y in s ensures s[0].score <= y.score {
      var i :| 0 <= i < |s| && s[i] == y;
      HeapRootIsMin(s, i);
    }
  }

  /** When no child of `i` is smaller than it, the sift-down is finished. */
  lemma SiftDownDone(s: seq<Key>, i: int)
    requires 0 <= i < |s| && HeapExceptDown(s, i)
    requires 2 * i + 1 < |s| ==> s[i].score <= s[2 * i + 1].score
    requires 2 * i + 2 < |s| ==> s[i].score <= s[2 * i + 2].score
    ensures IsMinHeap(s)
  {
    forall j | 0 < j < |s| && Parent(j) == i ensures s[Parent(j)].score <= s[j].score {
      assert j == 2 * i + 1 || j == 2 * i + 2;
    }
  }

  /** `i` is the parent of `j` exactly when `j` is one of the two child slots of `i`. */
  lemma ParentOf(j: int, i: int)
    requires j > 0
    ensures Parent(j) == i <==> j == 2 * i + 1 || j == 2 * i + 2
  {
  }

  /** One sift-down swap with the smaller child moves the defect one level down. */
  lemma SiftDownStep(s: seq<Key>, i: int, m: int)
    requires 0 <= i < |s| && HeapExceptDown(s, i) && Bridged(s, i)
    requires (m == 2 * i + 1 || m == 2 * i + 2) && m < |s|
    requires s[m].score < s[i].score
    requires 2 * i + 1 < |s| ==> s[m].score <= s[2 * i + 1].score
    requires 2 * i + 2 < |s| ==> s[m].score <= s[2 * i + 2].score
    ensures HeapExceptDown(Swap(s, i, m), m) && Bridged(Swap(s, i, m), m)
  {
    var t := Swap(s, i, m);
    ParentOf(m, i);
    forall j | 0 < j < |t| && Parent(j) != m ensures t[Parent(j)].score <= t[j].score {
      SiftDownEdge(s, i, m, j);
    }
    forall c | 0 < c < |t| && Parent(c) == m ensures t[Parent(m)].score <= t[c].score {
      ParentOf(c, m);
      assert t[c] == s[c];
    }
  }

  /** A single edge after the sift-down swap. */
  lemma SiftDownEdge(s: seq<Key>, i: int, m: int, j: int)
    requires 0 <= i < |s| && HeapExceptDown(s, i) && Bridged(s, i)
    requires (m == 2 * i + 1 || m == 2 * i + 2) && m < |s|
    requires s[m].score < s[i].score
    requires 2 * i + 1 < |s| ==> s[m].score <= s[2 * i + 1].score
    requires 2 * i + 2 < |s| ==> s[m].score <= s[2 * i + 2].score
    requires 0 < j < |s| && Parent(j) != m
    ensures Swap(s, i, m)[Parent(j)].score <= Swap(s, i, m)[j].score
  {
    var t := Swap(s, i, m);
    var p := Parent(j);
    ParentOf(j, i);
    if j == m {
    } else if p == i {
    } else if j == i {
      ParentOf(m, i);
      assert s[Parent(i)].score <= s[m].score;
    } else {
      assert t[j] == s[j];
      assert t[p] == s[p];
    }
  }

  class MinHeap {
    var data: seq<Key>

    ghost predicate Valid()
      reads this
    {
      IsMinHeap(data)
    }

    constructor ()
      ensures Valid() && data == []
    {
      data := [];
    }

    /** `size()`. */
    function Size(): nat
      reads this
    {
      |data|
    }

    /** `top()`: the first slot, which holds a pair of minimal score. */
    function Top(): (x: Key)
      reads this
      requires Valid() && |data| > 0
      ensures x in data && forall y :: y in data ==> x.score <= y.score
    {
      HeapRootIsMinAll(data);
      data[0]
    }

    /** `push(pair)`: append, then sift the new last slot up. */
    method Push(x: Key)
      requires Valid()
      modifies this
      ensures Valid()
      ensures multiset(data) == old(multiset(data)) + multiset{x}
      ensures |data| == old(|data|) + 1
    {
      data := data + [x];
      SiftUp(|data| - 1);
    }

    /**
     * `pop()`: `null` on an empty heap; otherwise remove and return the root,
     * moving the last slot to the root and sifting it down.
     */
    method Pop() returns (r: Option<Key>)
      requires Valid()
      modifies this
      ensures Valid()
      ensures old(data) == [] ==> r == None && data == []
      ensures old(data) != [] ==> r == Some(old(data)[0])
      ensures old(data) != [] ==> multiset(data) == old(multiset(data)) - multiset{old(data)[0]}
      ensures old(data) != [] ==> |data| == old(|data|) - 1
      ensures r.Some? ==> forall y :: y in old(data) ==> r.value.score <= y.score
    {
      if |data| == 0 {
        return None;
      }
      HeapRootIsMinAll(data);
      var root := data[0];
      var last := data[|data| - 1];
      ghost var before := data;
      data := data[..|data| - 1];
      assert before == data + [last];
      if |data| > 0 {
        data := data[0 := last];
        SiftDown(0);
      }
      return Some(root);
    }

    /** `_siftUp(i)`: swap the entry at `i` with its parent while the parent is larger. */
    method SiftUp(i0: int)
      requires 0 <= i0 < |data|
      requires HeapExceptUp(data, i0) && Bridged(data, i0)
      modifies this
      ensures Valid()
      ensures multiset(data) == old(multiset(data)) && |data| == old(|data|)
    {
      var i := i0;
      while i > 0
        invariant 0 <= i < |data| == |old(data)|
        invariant HeapExceptUp(data, i) && Bridged(data, i)
        invariant multiset(data) == old(multiset(data))
        decreases i
      {
        var p := Parent(i);
        if data[p].score <= data[i].score {
          break;
        }
        data := Swap(data, p, i);
        i := p;
      }
    }

    /** `_siftDown(i)`: swap the entry at `i` with its smaller child while that child is smaller. */
    method SiftDown(i0: int)
      requires 0 <= i0 < |data|
      requires HeapExceptDown(data, i0) && Bridged(data, i0)
      modifies this
      ensures Valid()
      ensures multiset(data) == old(multiset(data)) && |data| == old(|data|)
    {
      var n := |data|;
      var i := i0;
      while true
        invariant 0 <= i < |data| == n
        invariant HeapExceptDown(data, i) && Bridged(data, i)
        invariant multiset(data) == old(multiset(data))
        decreases n - i
      {
        var l, r, smallest := 2 * i + 1, 2 * i + 2, i;
        if l < n && data[l].score < data[smallest].score {
          smallest := l;
        }
        if r < n && data[r].score < data[smallest].score {
          smallest := r;
        }
        if smallest == i {
          SiftDownDone(data, i);
          break;
        }
        SiftDownStep(data, i, smallest);
        data := Swap(data, i, smallest);
        i := smallest;
      }
    }
  }
}
