/**
 * Bounded top-K selection (the loop of `renderTopK`, without the list rendering):
 * keep at most `k` pairs in a min-heap, evicting the minimum only for a strictly
 * higher score, then drain the heap and reverse.
 */
module TopK {
  import opened Keys
  import opened KeySeq
  import opened Heap
  import opened Wrappers

  function Min(a: int, b: int): int
  {
    if a <= b then a else b
  }

  /** `Array.prototype.reverse`. */
  function Reverse(s: seq<Key>): (r: seq<Key>)
    ensures |r| == |s|
    ensures forall i :: 0 <= i < |s| ==> r[i] == s[|s| - 1 - i]
  {
    if s == [] then [] else Reverse(s[1..]) + [s[0]]
  }

  lemma {:induction false} ReverseMultiset(s: seq<Key>)
    ensures multiset(Reverse(s)) == multiset(s)
  {
    if s != [] {
      ReverseMultiset(s[1..]);
      assert s == [s[0]] + s[1..];
    }
  }

  /** Reversing a sequence of non-decreasing scores gives non-increasing scores. */
  lemma ReverseAscending(d: seq<Key>)
    requires forall a, b :: 0 <= a < b < |d| ==> d[a].score <= d[b].score
    ensures NonIncreasing(Reverse(d))
  {
  }

  /** When the output and the excluded pairs partition the input, the bound carries over to the output. */
  lemma Conclude(p: multiset<Key>, e: multiset<Key>, out: seq<Key>)
    requires multiset(out) + e == p
    requires Below(e, multiset(out))
    ensures multiset(out) <= p
    ensures forall x, y :: x in p - multiset(out) && y in out ==> x.score <= y.score
  {
    assert p - multiset(out) == e;
    forall x, y | x in p - multiset(out) && y in out ensures x.score <= y.score {
      assert y in multiset(out);
    }
  }

  /** Scores never increase along the sequence. */
  predicate NonIncreasing(s: seq<Key>)
  {
    forall i, j :: 0 <= i < j < |s| ==> s[i].score >= s[j].score
  }

  /** A sequence drawn from a sequence without repetitions has none either. */
  lemma SubMultisetDistinct(a: seq<Key>, b: seq<Key>)
    requires multiset(a) <= multiset(b) && Distinct(b)
    ensures Distinct(a)
  {
    forall i, j | 0 <= i < j < |a| ensures a[i] != a[j] {
      if a[i] == a[j] {
        var x := a[i];
        assert a == a[..j] + [a[j]] + a[j + 1..];
        assert x in a[..j];
        assert multiset(a)[x] >= 2;
        DistinctCount(b, x);
        assert false;
      }
    }
  }

  lemma {:induction false} DistinctCount(b: seq<Key>, x: Key)
    requires Distinct(b)
    ensures multiset(b)[x] <= 1
  {
    if b != [] {
      var p := b[..|b| - 1];
      assert b == p + [b[|b| - 1]];
      assert Distinct(p);
      DistinctCount(p, x);
      if b[|b| - 1] == x {
        assert x !in p;
      }
    }
  }

  /** Raising the heap's floor: evicting the minimum for a higher score keeps every excluded pair below every kept one. */
  lemma EvictKeepsBound(h: multiset<Key>, e: multiset<Key>, m: Key, p: Key, h': multiset<Key>)
    requires m in h && forall y :: y in h ==> m.score <= y.score
    requires forall x, y :: x in e && y in h ==> x.score <= y.score
    requires m.score < p.score && h' == h - multiset{m} + multiset{p}
    ensures forall x, y :: x in e + multiset{m} && y in h' ==> x.score <= y.score
  {
    forall x, y | x in e + multiset{m} && y in h' ensures x.score <= y.score {
      if y != p {
        assert y in h;
      }
    }
  }

  /** Evicting `m` for `p` moves `m` to the excluded pairs and accounts for `p`. */
  lemma EvictBalances(h: multiset<Key>, e: multiset<Key>, m: Key, p: Key, h': multiset<Key>)
    requires m in h && h' == h - multiset{m} + multiset{p}
    ensures h' + (e + multiset{m}) == h + e + multiset{p}
  {
  }

  lemma SkipBalances(h: multiset<Key>, e: multiset<Key>, p: Key)
    ensures h + (e + multiset{p}) == h + e + multiset{p}
  {
  }

  lemma PrefixSnoc(s: seq<Key>, i: int)
    requires 0 <= i < |s|
    ensures multiset(s[..i + 1]) == multiset(s[..i]) + multiset{s[i]}
  {
    assert s[..i + 1] == s[..i] + [s[i]];
  }

  /** Every excluded pair scores no higher than every pair in the heap. */
  predicate Below(e: multiset<Key>, h: multiset<Key>)
  {
    forall x, y :: x in e && y in h ==> x.score <= y.score
  }

  /**
   * One step of the selection loop, offering the pair `p` to a heap of at most
   * `k` pairs: push while there is room, otherwise replace the minimum when `p`
   * scores strictly higher. `e` and `e'` are the pairs excluded so far, before
   * and after the step: on a full heap `e'` gains the evicted root exactly when
   * `p` scores above it and `p` itself otherwise, so that with the balance
   * clause the heap's contents are `old - {root} + {p}` or unchanged.
   */
  method Offer(heap: MinHeap, k: int, p: Key, ghost e: multiset<Key>) returns (ghost e': multiset<Key>)
    requires heap.Valid() && 1 <= k && |heap.data| <= k
    requires |heap.data| < k ==> e == multiset{}
    requires Below(e, multiset(heap.data))
    modifies heap
    ensures heap.Valid()
    ensures |heap.data| == Min(k, |old(heap.data)| + 1)
    ensures |old(heap.data)| < k ==> e' == e
    ensures |old(heap.data)| == k && p.score <= old(heap.data)[0].score ==> e' == e + multiset{p}
    ensures |old(heap.data)| == k && p.score > old(heap.data)[0].score ==> e' == e + multiset{old(heap.data)[0]}
    ensures multiset(heap.data) + e' == old(multiset(heap.data)) + e + multiset{p}
    ensures |heap.data| < k ==> e' == multiset{}
    ensures Below(e', multiset(heap.data))
  {
    if heap.Size() < k {
      heap.Push(p);
      e' := e;
    } else if p.score > heap.Top().score {
      ghost var m := heap.Top();
      ghost var before := multiset(heap.data);
      var _ := heap.Pop();
      heap.Push(p);
      EvictKeepsBound(before, e, m, p, multiset(heap.data));
      EvictBalances(before, e, m, p, multiset(heap.data));
      e' := e + multiset{m};
    } else {
      SkipBalances(multiset(heap.data), e, p);
      e' := e + multiset{p};
    }
  }

  /**
   * The `k` highest-scoring pairs, highest first, where `players` lists the
   * (score, name) pairs in the players map's iteration order. An excluded pair
   * never scores above an included one; among equal scores, which pairs are
   * kept depends on the iteration order and on the heap, not on names.
   *
   * With `k < 1` the heap never receives a pair, so the first player makes the
   * loop read `top()[0]` of an empty heap, which throws: `None`.
   */
  method TopK(players: seq<Key>, k: int) returns (r: Option<seq<Key>>)
    ensures r.None? <==> k < 1 && |players| > 0
    ensures r.Some? && k < 1 ==> r.value == []
    ensures r.Some? && k >= 1 ==> |r.value| == Min(k, |players|)
    ensures r.Some? ==> NonIncreasing(r.value)
    ensures r.Some? ==> multiset(r.value) <= multiset(players)
    ensures r.Some? && Distinct(players) ==> Distinct(r.value)
    ensures r.Some? ==> forall x, y :: x in multiset(players) - multiset(r.value) && y in r.value ==> x.score <= y.score
  {
    if k < 1 {
      if |players| == 0 {
        return Some([]);
      }
      return None;
    }
    var heap := new MinHeap();
    ghost var excluded := Fill(heap, players, k);
    var drained := Drain(heap);
    var out := Reverse(drained);
    ReverseMultiset(drained);
    ReverseAscending(drained);
    Conclude(multiset(players), excluded, out);
    if Distinct(players) {
      SubMultisetDistinct(out, players);
    }
    return Some(out);
  }

  /**
   * The selection loop: offer each pair in turn to an empty heap of at most `k`
   * pairs. The heap keeps `min(k, |players|)` of them, and every pair it
   * excluded scores no higher than every pair it kept.
   */
  method Fill(heap: MinHeap, players: seq<Key>, k: int) returns (ghost excluded: multiset<Key>)
    requires heap.Valid() && heap.data == [] && 1 <= k
    modifies heap
    ensures heap.Valid()
    ensures |heap.data| == Min(k, |players|)
    ensures multiset(heap.data) + excluded == multiset(players)
    ensures Below(excluded, multiset(heap.data))
  {
    excluded := multiset{};
    var i := 0;
    while i < |players|
      invariant 0 <= i <= |players|
      invariant heap.Valid()
      invariant |heap.data| == Min(k, i)
      invariant |heap.data| < k ==> excluded == multiset{}
      invariant multiset(heap.data) + excluded == multiset(players[..i])
      invariant Below(excluded, multiset(heap.data))
    {
      PrefixSnoc(players, i);
      excluded := Offer(heap, k, players[i], excluded);
      i := i + 1;
    }
    assert players[..i] == players;
  }

  /** `while(heap.size()) out.push(heap.pop())`: the heap's pairs in non-decreasing score order. */
  method Drain(heap: MinHeap) returns (drained: seq<Key>)
    requires heap.Valid()
    modifies heap
    ensures heap.Valid() && heap.data == []
    ensures multiset(drained) == old(multiset(heap.data))
    ensures forall a, b :: 0 <= a < b < |drained| ==> drained[a].score <= drained[b].score
  {
    drained := [];
    while heap.Size() > 0
      invariant heap.Valid()
      invariant multiset(drained) + multiset(heap.data) == old(multiset(heap.data))
      invariant forall a, b :: 0 <= a < b < |drained| ==> drained[a].score <= drained[b].score
      invariant forall a, y :: 0 <= a < |drained| && y in multiset(heap.data) ==> drained[a].score <= y.score
      decreases |heap.data|
    {
      ghost var before := heap.data;
      var r := heap.Pop();
      DrainStep(drained, before, r.value, heap.data, old(multiset(heap.data)));
      drained := drained + [r.value];
    }
  }

  /** Appending the popped minimum keeps the drained pairs sorted, below the rest, and accounted for. */
  lemma DrainStep(drained: seq<Key>, before: seq<Key>, x: Key, after: seq<Key>, all: multiset<Key>)
    requires before != [] && x == before[0]
    requires multiset(after) == multiset(before) - multiset{x}
    requires forall y :: y in before ==> x.score <= y.score
    requires multiset(drained) + multiset(before) == all
    requires forall a, b :: 0 <= a < b < |drained| ==> drained[a].score <= drained[b].score
    requires forall a, y :: 0 <= a < |drained| && y in multiset(before) ==> drained[a].score <= y.score
    ensures multiset(drained + [x]) + multiset(after) == all
    ensures forall a, b :: 0 <= a < b < |drained + [x]| ==> (drained + [x])[a].score <= (drained + [x])[b].score
    ensures forall a, y :: 0 <= a < |drained + [x]| && y in multiset(after) ==> (drained + [x])[a].score <= y.score
  {
    var d := drained + [x];
    assert x in multiset(before);
    forall a, y | 0 <= a < |d| && y in multiset(after) ensures d[a].score <= y.score {
      assert y in multiset(before);
      if a < |drained| {
        assert d[a] == drained[a];
      }
    }
    forall a, b | 0 <= a < b < |d| ensures d[a].score <= d[b].score {
      if b == |drained| {
        assert d[a] == drained[a] && x in multiset(before);
      }
    }
  }
}
