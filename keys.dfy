/**
 * The ordering key of the leaderboard: a (score, name) pair, ordered by score
 * descending and, for equal scores, by name ascending.
 *
 * The original compares names with the locale-aware `localeCompare`; this model
 * uses a fixed lexicographic comparison of character codes instead.
 */
module Keys {

  /** A pair as stored in a tree node and in the heap: `[score, name]`. */
  datatype Key = Key(score: int, name: string)

  /** Three-way lexicographic comparison of names: -1, 0 or 1. A proper prefix comes first. */
  function NameCompare(a: string, b: string): (c: int)
    ensures -1 <= c <= 1
  {
    if a == [] && b == [] then 0
    else if a == [] then -1
    else if b == [] then 1
    else if a[0] < b[0] then -1
    else if a[0] > b[0] then 1
    else NameCompare(a[1..], b[1..])
  }

  /**
   * The comparator of the tree: negative when `a` comes first (higher score, or
   * equal score and smaller name), positive when `b` comes first, zero on equal keys.
   */
  function Cmp(a: Key, b: Key): int
  {
    if a.score != b.score then b.score - a.score else NameCompare(a.name, b.name)
  }

  /** `a` strictly precedes `b` in leaderboard order. */
  predicate Before(a: Key, b: Key)
  {
    Cmp(a, b) < 0
  }

  /** Name order is the strict lexicographic order. */
  predicate NameLess(a: string, b: string)
  {
    NameCompare(a, b) < 0
  }

  lemma {:induction false} NameCompareZero(a: string, b: string)
    ensures NameCompare(a, b) == 0 <==> a == b
  {
    if a != [] && b != [] && a[0] == b[0] {
      NameCompareZero(a[1..], b[1..]);
      assert a == [a[0]] + a[1..];
      assert b == [b[0]] + b[1..];
    }
  }

  lemma {:induction false} NameCompareAntisymmetric(a: string, b: string)
    ensures NameCompare(a, b) == -NameCompare(b, a)
  {
    if a != [] && b != [] && a[0] == b[0] {
      NameCompareAntisymmetric(a[1..], b[1..]);
    }
  }

  lemma {:induction false} NameCompareTransitive(a: string, b: string, c: string)
    requires NameCompare(a, b) < 0 && NameCompare(b, c) < 0
    ensures NameCompare(a, c) < 0
  {
    if a != [] && b != [] && c != [] && a[0] == b[0] && b[0] == c[0] {
      NameCompareTransitive(a[1..], b[1..], c[1..]);
    }
  }

  /** `Cmp` is negative exactly when the score is higher, or equal with a smaller name. */
  lemma CmpNegative(a: Key, b: Key)
    ensures Cmp(a, b) < 0 <==> a.score > b.score || (a.score == b.score && NameLess(a.name, b.name))
  {
  }

  /** `Cmp` is zero only on identical keys. */
  lemma CmpZero(a: Key, b: Key)
    ensures Cmp(a, b) == 0 <==> a == b
  {
    NameCompareZero(a.name, b.name);
  }

  /** Swapping the arguments flips the sign: positive means the second key comes first. */
  lemma CmpFlip(a: Key, b: Key)
    ensures Cmp(a, b) > 0 <==> Before(b, a)
    ensures Cmp(a, b) < 0 <==> Before(a, b)
  {
    NameCompareAntisymmetric(a.name, b.name);
  }

  lemma BeforeIrreflexive(a: Key)
    ensures !Before(a, a)
  {
    NameCompareZero(a.name, a.name);
  }

  lemma BeforeAsymmetric(a: Key, b: Key)
    ensures Before(a, b) ==> !Before(b, a)
  {
    NameCompareAntisymmetric(a.name, b.name);
  }

  lemma BeforeTransitive(a: Key, b: Key, c: Key)
    requires Before(a, b) && Before(b, c)
    ensures Before(a, c)
  {
    if a.score == b.score && b.score == c.score {
      NameCompareTransitive(a.name, b.name, c.name);
    }
  }

  /** Any two distinct keys are ordered one way or the other. */
  lemma BeforeTotal(a: Key, b: Key)
    ensures a != b ==> Before(a, b) || Before(b, a)
  {
    CmpZero(a, b);
    NameCompareAntisymmetric(a.name, b.name);
  }

  /** `Before` is a strict total order on keys (all four properties at once). */
  lemma BeforeIsStrictTotalOrder()
    ensures forall a: Key :: !Before(a, a)
    ensures forall a: Key, b: Key :: Before(a, b) ==> !Before(b, a)
    ensures forall a: Key, b: Key, c: Key :: Before(a, b) && Before(b, c) ==> Before(a, c)
    ensures forall a: Key, b: Key :: a != b ==> Before(a, b) || Before(b, a)
  {
    forall a: Key ensures !Before(a, a) { BeforeIrreflexive(a); }
    forall a: Key, b: Key ensures Before(a, b) ==> !Before(b, a) { BeforeAsymmetric(a, b); }
    forall a: Key, b: Key, c: Key | Before(a, b) && Before(b, c) ensures Before(a, c) {
      BeforeTransitive(a, b, c);
    }
    forall a: Key, b: Key ensures a != b ==> Before(a, b) || Before(b, a) { BeforeTotal(a, b); }
  }

  /** Equal scores are ordered by name: "Amy" before "Bob". */
  lemma EqualScoresByName(s: int)
    ensures Before(Key(s, "Amy"), Key(s, "Bob"))
  {
  }
}
