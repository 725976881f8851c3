/**
 * Facts about sequences of keys in leaderboard order, the shape of the list
 * that the tree exports (`toArrayDesc`).
 */
module KeySeq {
  import opened Keys

  /** Every key strictly precedes every later key. */
  predicate StrictlySorted(s: seq<Key>)
  {
    forall i, j :: 0 <= i < j < |s| ==> Before(s[i], s[j])
  }

  predicate Distinct<T(==)>(s: seq<T>)
  {
    forall i, j :: 0 <= i < j < |s| ==> s[i] != s[j]
  }

  function Elements(s: seq<Key>): set<Key>
  {
    set x | x in s
  }

  /** No two keys of the set carry the same name. */
  predicate UniqueNames(ks: set<Key>)
  {
    forall a, b :: a in ks && b in ks && a.name == b.name ==> a == b
  }

  /**
   * `Array.prototype.findIndex` on the exported list, matching on the name:
   * the first index whose entry has this name, or -1.
   */
  function IndexOfName(s: seq<Key>, name: string): (i: int)
    ensures -1 <= i < |s|
    ensures i >= 0 ==> s[i].name == name && forall j :: 0 <= j < i ==> s[j].name != name
    ensures i == -1 ==> forall j :: 0 <= j < |s| ==> s[j].name != name
  {
    if s == [] then -1
    else if s[0].name == name then 0
    else
      var i := IndexOfName(s[1..], name);
      if i < 0 then -1 else i + 1
  }

  lemma SortedDistinct(s: seq<Key>)
    requires StrictlySorted(s)
    ensures Distinct(s)
  {
    forall i, j | 0 <= i < j < |s| ensures s[i] != s[j] {
      BeforeIrreflexive(s[i]);
    }
  }

  lemma {:induction false} DistinctCard(s: seq<Key>)
    requires Distinct(s)
    ensures |Elements(s)| == |s|
  {
    if s != [] {
      var p := s[..|s| - 1];
      assert Distinct(p);
      DistinctCard(p);
      assert Elements(s) == Elements(p) + {s[|s| - 1]};
      assert s[|s| - 1] !in Elements(p);
    }
  }

  /** The head of a strictly sorted sequence does not occur in its tail. */
  lemma SortedHeadSplit(s: seq<Key>)
    requires StrictlySorted(s) && s != []
    ensures Elements(s) == {s[0]} + Elements(s[1..])
    ensures s[0] !in Elements(s[1..])
    ensures StrictlySorted(s[1..])
  {
    assert s == [s[0]] + s[1..];
    if s[0] in Elements(s[1..]) {
      var j :| 0 <= j < |s[1..]| && s[1..][j] == s[0];
      assert Before(s[0], s[j + 1]);
      BeforeIrreflexive(s[0]);
    }
  }

  lemma HeadIsElement(s: seq<Key>)
    requires s != []
    ensures s[0] in Elements(s)
  {
  }

  /** A strictly sorted sequence is determined by its set of elements. */
  lemma {:induction false} SortedUnique(a: seq<Key>, b: seq<Key>)
    requires StrictlySorted(a) && StrictlySorted(b)
    requires Elements(a) == Elements(b)
    ensures a == b
  {
    if a == [] {
      if b != [] { HeadIsElement(b); assert false; }
    } else if b == [] {
      HeadIsElement(a);
      assert false;
    } else {
      assert a[0] in Elements(b);
      var j :| 0 <= j < |b| && b[j] == a[0];
      assert b[0] in Elements(a);
      var i :| 0 <= i < |a| && a[i] == b[0];
      if j > 0 {
        assert Before(b[0], a[0]);
        if i == 0 {
          BeforeIrreflexive(a[0]);
        } else {
          assert Before(a[0], b[0]);
          BeforeAsymmetric(a[0], b[0]);
        }
      }
      SortedHeadSplit(a);
      SortedHeadSplit(b);
      SortedUnique(a[1..], b[1..]);
      assert a == [a[0]] + a[1..];
      assert b == [b[0]] + b[1..];
    }
  }

  /**
   * In a strictly sorted sequence, the keys before position `i` are exactly the
   * keys that precede `s[i]`, and there are `i` of them.
   */
  lemma SortedCountBefore(s: seq<Key>, i: int)
    requires StrictlySorted(s) && 0 <= i < |s|
    ensures (set y | y in Elements(s) && Before(y, s[i])) == Elements(s[..i])
    ensures |Elements(s[..i])| == i
  {
    forall y | y in Elements(s) && Before(y, s[i]) ensures y in Elements(s[..i]) {
      var j :| 0 <= j < |s| && s[j] == y;
      if j >= i {
        if j == i { BeforeIrreflexive(y); } else { BeforeAsymmetric(s[i], y); }
      }
      assert s[..i][j] == y;
    }
    SortedDistinct(s);
    assert Distinct(s[..i]);
    DistinctCard(s[..i]);
  }

  /** Names are unique in a sorted sequence of keys whose names are unique. */
  lemma UniqueNamesIndex(s: seq<Key>, i: int)
    requires StrictlySorted(s) && UniqueNames(Elements(s)) && 0 <= i < |s|
    ensures IndexOfName(s, s[i].name) == i
  {
    var j := IndexOfName(s, s[i].name);
    assert s[j] in Elements(s) && s[i] in Elements(s);
    if j != i {
      assert s[j] == s[i];
      SortedDistinct(s);
    }
  }
}
