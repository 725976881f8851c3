/**
 * The ordered index: an AVL tree over (score, name) keys.
 *
 * The original links mutable nodes, but every recursive step returns the new
 * subtree root and the caller stores it back, so the tree is modelled as an
 * inductive value and insert and delete as functions returning the new tree.
 * A node keeps its stored height, as the original does.
 */
module AvlTree {
  import opened Keys
  import opened KeySeq

  datatype Tree = Leaf | Node(left: Tree, key: Key, right: Tree, height: nat)

  /** `height(n)`: the stored height, 0 for an empty subtree. */
  function Height(t: Tree): nat
  {
    if t.Leaf? then 0 else t.height
  }

  function Max(a: int, b: int): int
  {
    if a >= b then a else b
  }

  /** A node built from its parts with `updateHeight` applied. */
  function MakeNode(l: Tree, k: Key, r: Tree): Tree
  {
    Node(l, k, r, 1 + Max(Height(l), Height(r)))
  }

  /** Balance factor: height(left) - height(right). */
  function Bf(t: Tree): int
    requires t.Node?
  {
    Height(t.left) - Height(t.right)
  }

  function KeySet(t: Tree): set<Key>
  {
    match t
    case Leaf => {}
    case Node(l, k, r, _) => KeySet(l) + {k} + KeySet(r)
  }

  /** Search-tree order under `cmp`: smaller keys (earlier in rank) to the left. */
  predicate IsBst(t: Tree)
  {
    match t
    case Leaf => true
    case Node(l, k, r, _) =>
      IsBst(l) && IsBst(r) &&
      (forall x :: x in KeySet(l) ==> Before(x, k)) &&
      (forall x :: x in KeySet(r) ==> Before(k, x))
  }

  /** Every stored height is one more than the larger child height. */
  predicate HeightsOk(t: Tree)
  {
    match t
    case Leaf => true
    case Node(l, _, r, h) => HeightsOk(l) && HeightsOk(r) && h == 1 + Max(Height(l), Height(r))
  }

  /** The AVL condition at every node. */
  predicate Balanced(t: Tree)
  {
    match t
    case Leaf => true
    case Node(l, _, r, _) => Balanced(l) && Balanced(r) && -1 <= Height(l) - Height(r) <= 1
  }

  /** The invariant the tree keeps between operations. */
  predicate Valid(t: Tree)
  {
    IsBst(t) && HeightsOk(t) && Balanced(t)
  }

  /** `toArrayDesc`: the in-order listing, which is leaderboard order. */
  function InOrder(t: Tree): seq<Key>
  {
    match t
    case Leaf => []
    case Node(l, k, r, _) => InOrder(l) + [k] + InOrder(r)
  }

  // ---------------------------------------------------------------- rotations

  /** `rotateRight(y)`: the left child becomes the root; the listing is unchanged. */
  function RotateRight(y: Tree): (r: Tree)
    requires y.Node? && y.left.Node?
    ensures r.Node? && r.right.Node?
    ensures InOrder(r) == InOrder(y) && KeySet(r) == KeySet(y)
  {
    var x := y.left;
    MakeNode(x.left, x.key, MakeNode(x.right, y.key, y.right))
  }

  /** `rotateLeft(x)`: the right child becomes the root; the listing is unchanged. */
  function RotateLeft(x: Tree): (r: Tree)
    requires x.Node? && x.right.Node?
    ensures r.Node? && r.left.Node?
    ensures InOrder(r) == InOrder(x) && KeySet(r) == KeySet(x)
  {
    var y := x.right;
    MakeNode(MakeNode(x.left, x.key, y.left), y.key, y.right)
  }

  lemma RotateRightBst(y: Tree)
    requires y.Node? && y.left.Node? && IsBst(y)
    ensures IsBst(RotateRight(y))
  {
    var x := y.left;
    forall z | z in KeySet(y.right) ensures Before(x.key, z) {
      BeforeTransitive(x.key, y.key, z);
    }
  }

  lemma RotateLeftBst(x: Tree)
    requires x.Node? && x.right.Node? && IsBst(x)
    ensures IsBst(RotateLeft(x))
  {
    var y := x.right;
    forall z | z in KeySet(x.left) ensures Before(z, y.key) {
      BeforeTransitive(z, x.key, y.key);
    }
  }

  /** A BST stays a BST when one child is replaced by a subtree with the same keys. */
  lemma BstSameKeys(t: Tree, c: Tree, onLeft: bool)
    requires t.Node? && IsBst(t) && IsBst(c)
    requires KeySet(c) == (if onLeft then KeySet(t.left) else KeySet(t.right))
    ensures IsBst(if onLeft then t.(left := c) else t.(right := c))
  {
  }

  /** Preconditions shared by the rebalancing cases: valid children, correct order and heights. */
  predicate ChildrenValid(t: Tree)
  {
    t.Node? && IsBst(t) && HeightsOk(t) && Valid(t.left) && Valid(t.right)
  }

  /** A single right rotation repairs a node whose left side is two taller and not right-leaning. */
  lemma RotateRightValid(y: Tree)
    requires ChildrenValid(y) && Bf(y) == 2
    requires y.left.Node? && Height(y.left.left) >= Height(y.left.right)
    ensures Valid(RotateRight(y))
    ensures Height(RotateRight(y)) ==
            if Height(y.left.left) == Height(y.left.right) then Height(y) else Height(y) - 1
  {
    RotateRightBst(y);
  }

  lemma RotateLeftValid(x: Tree)
    requires ChildrenValid(x) && Bf(x) == -2
    requires x.right.Node? && Height(x.right.right) >= Height(x.right.left)
    ensures Valid(RotateLeft(x))
    ensures Height(RotateLeft(x)) ==
            if Height(x.right.left) == Height(x.right.right) then Height(x) else Height(x) - 1
  {
    RotateLeftBst(x);
  }

  /** A left-right double rotation repairs a node whose left child leans right. */
  lemma RotateLeftRightValid(y: Tree)
    requires ChildrenValid(y) && Bf(y) == 2
    requires y.left.Node? && y.left.right.Node? && Height(y.left.right) == Height(y.left.left) + 1
    ensures
      var r := RotateRight(y.(left := RotateLeft(y.left)));
      Valid(r) && Height(r) == Height(y) - 1
  {
    var l, c := y.left, y.right;
    var a, b := l.left, l.right;
    ValidChildren(l);
    ValidChildren(b);
    var lo := MakeNode(a, l.key, b.left);
    var hi := MakeNode(b.right, y.key, c);
    assert HeightsOk(lo) && Balanced(lo) && HeightsOk(hi) && Balanced(hi);
    RotateLeftBst(l);
    var y' := y.(left := RotateLeft(l));
    BstSameKeys(y, RotateLeft(l), true);
    RotateRightBst(y');
    assert RotateRight(y') == MakeNode(lo, b.key, hi);
  }

  lemma RotateRightLeftValid(x: Tree)
    requires ChildrenValid(x) && Bf(x) == -2
    requires x.right.Node? && x.right.left.Node? && Height(x.right.left) == Height(x.right.right) + 1
    ensures
      var r := RotateLeft(x.(right := RotateRight(x.right)));
      Valid(r) && Height(r) == Height(x) - 1
  {
    var a, r := x.left, x.right;
    var b, c := r.left, r.right;
    ValidChildren(r);
    ValidChildren(b);
    var lo := MakeNode(a, x.key, b.left);
    var hi := MakeNode(b.right, r.key, c);
    assert HeightsOk(lo) && Balanced(lo) && HeightsOk(hi) && Balanced(hi);
    RotateRightBst(r);
    var x' := x.(right := RotateRight(r));
    BstSameKeys(x, RotateRight(r), false);
    RotateLeftBst(x');
    assert RotateLeft(x') == MakeNode(lo, b.key, hi);
  }

  // ------------------------------------------------------------------ insert

  /**
   * What `_insert` knows when it rebalances a node after inserting `k` below it:
   * valid children, order and heights correct, imbalance at most two, and a
   * two-taller side was grown on the side of its root where `k` went.
   */
  predicate InsertShape(n: Tree, k: Key)
  {
    ChildrenValid(n) && -2 <= Bf(n) <= 2 &&
    (Bf(n) == 2 ==>
      n.left.Node? &&
      ((Before(k, n.left.key) && Height(n.left.left) == Height(n.left.right) + 1) ||
       (Before(n.left.key, k) && Height(n.left.right) == Height(n.left.left) + 1))) &&
    (Bf(n) == -2 ==>
      n.right.Node? &&
      ((Before(n.right.key, k) && Height(n.right.right) == Height(n.right.left) + 1) ||
       (Before(k, n.right.key) && Height(n.right.left) == Height(n.right.right) + 1)))
  }

  /**
   * The rebalancing tail of `_insert`: the four rotation cases, chosen by the
   * balance factor and by comparing the inserted key with the child's key.
   */
  function InsertFix(n: Tree, k: Key): (r: Tree)
    requires InsertShape(n, k)
    ensures Valid(r) && InOrder(r) == InOrder(n) && KeySet(r) == KeySet(n)
    ensures -1 <= Bf(n) <= 1 ==> r == n
    ensures Bf(n) == 2 || Bf(n) == -2 ==> Height(r) == Height(n) - 1
  {
    var bf := Height(n.left) - Height(n.right);
    if bf > 1 && Cmp(k, n.left.key) < 0 then
      BeforeAsymmetric(k, n.left.key);
      RotateRightValid(n);
      RotateRight(n)
    else if bf < -1 && Cmp(k, n.right.key) > 0 then
      CmpFlip(k, n.right.key);
      RotateLeftValid(n);
      RotateLeft(n)
    else if bf > 1 && Cmp(k, n.left.key) > 0 then
      CmpFlip(k, n.left.key);
      RotateLeftRightValid(n);
      RotateRight(n.(left := RotateLeft(n.left)))
    else if bf < -1 && Cmp(k, n.right.key) < 0 then
      BeforeAsymmetric(k, n.right.key);
      RotateRightLeftValid(n);
      RotateLeft(n.(right := RotateRight(n.right)))
    else
      CmpFlip(k, if n.left.Node? then n.left.key else k);
      CmpFlip(k, if n.right.Node? then n.right.key else k);
      n
  }

  /**
   * After an insertion that made the tree one taller, the root key is unchanged
   * and the side that received the new key is the taller one.
   */
  predicate GrewToward(t: Tree, r: Tree, k: Key)
  {
    Height(r) == Height(t) + 1 && t.Node? ==>
      r.Node? && r.key == t.key &&
      (Before(k, r.key) ==> Height(r.left) == Height(r.right) + 1) &&
      (Before(r.key, k) ==> Height(r.right) == Height(r.left) + 1)
  }

  /**
   * `_insert`: add a key; an equal key already present leaves the tree as it is.
   * The result is again an AVL tree holding one more key, at most one level taller.
   */
  function Insert(t: Tree, k: Key): (r: Tree)
    requires Valid(t)
    ensures Valid(r)
    ensures KeySet(r) == KeySet(t) + {k}
    ensures k in KeySet(t) ==> r == t
    ensures Height(t) <= Height(r) <= Height(t) + 1
    ensures GrewToward(t, r, k)
    decreases t
  {
    match t
    case Leaf => Node(Leaf, k, Leaf, 1)
    case Node(l, x, rt, _) =>
      var c := Cmp(k, x);
      if c < 0 then
        var l' := Insert(l, k);
        InsertedLeft(t, k, l');
        InsertFix(MakeNode(l', x, rt), k)
      else if c > 0 then
        var r' := Insert(rt, k);
        InsertedRight(t, k, r');
        InsertFix(MakeNode(l, x, r'), k)
      else
        CmpZero(k, x);
        t
  }

  /** The step of `Insert` that descends left establishes the rebalancing precondition. */
  lemma InsertedLeft(t: Tree, k: Key, l': Tree)
    requires Valid(t) && t.Node? && Cmp(k, t.key) < 0
    requires Valid(l') && KeySet(l') == KeySet(t.left) + {k}
    requires k in KeySet(t.left) ==> l' == t.left
    requires Height(t.left) <= Height(l') <= Height(t.left) + 1
    requires GrewToward(t.left, l', k)
    ensures
      var n := MakeNode(l', t.key, t.right);
      InsertShape(n, k) && -1 <= Bf(n) <= 2 &&
      KeySet(n) == KeySet(t) + {k} &&
      (Bf(n) == 2 ==> Height(n) == Height(t) + 1) &&
      (Bf(n) <= 1 ==> Height(t) <= Height(n) <= Height(t) + 1 && GrewToward(t, n, k)) &&
      (k in KeySet(t) ==> n == t)
  {
    InsertedLeftShape(t, k, l');
    InsertedLeftHeight(t, k, l');
  }

  lemma InsertedLeftShape(t: Tree, k: Key, l': Tree)
    requires Valid(t) && t.Node? && Cmp(k, t.key) < 0
    requires Valid(l') && KeySet(l') == KeySet(t.left) + {k}
    requires k in KeySet(t.left) ==> l' == t.left
    requires Height(t.left) <= Height(l') <= Height(t.left) + 1
    requires GrewToward(t.left, l', k)
    ensures
      var n := MakeNode(l', t.key, t.right);
      InsertShape(n, k) && -1 <= Bf(n) <= 2 && KeySet(n) == KeySet(t) + {k} && (k in KeySet(t) ==> n == t)
  {
    var n := MakeNode(l', t.key, t.right);
    CmpFlip(k, t.key);
    BeforeIrreflexive(k);
    if Bf(n) == 2 {
      assert t.left.Node?;
      if k in KeySet(t.left) {
      } else {
        assert t.left.key != k;
        BeforeTotal(k, t.left.key);
      }
    }
  }

  lemma InsertedLeftHeight(t: Tree, k: Key, l': Tree)
    requires Valid(t) && t.Node? && Cmp(k, t.key) < 0
    requires Valid(l') && KeySet(l') == KeySet(t.left) + {k}
    requires k in KeySet(t.left) ==> l' == t.left
    requires Height(t.left) <= Height(l') <= Height(t.left) + 1
    requires GrewToward(t.left, l', k)
    ensures
      var n := MakeNode(l', t.key, t.right);
      (Bf(n) == 2 ==> Height(n) == Height(t) + 1) &&
      (Bf(n) <= 1 ==> Height(t) <= Height(n) <= Height(t) + 1 && GrewToward(t, n, k))
  {
    var n := MakeNode(l', t.key, t.right);
    CmpFlip(k, t.key);
    BeforeIrreflexive(k);
    if Bf(n) == 2 {
      assert t.left.Node?;
      if k in KeySet(t.left) {
      } else {
        assert t.left.key != k;
        BeforeTotal(k, t.left.key);
      }
    }
    if Height(n) == Height(t) + 1 {
      BeforeAsymmetric(k, t.key);
    }
  }

  lemma InsertedRight(t: Tree, k: Key, r': Tree)
    requires Valid(t) && t.Node? && Cmp(k, t.key) > 0
    requires Valid(r') && KeySet(r') == KeySet(t.right) + {k}
    requires k in KeySet(t.right) ==> r' == t.right
    requires Height(t.right) <= Height(r') <= Height(t.right) + 1
    requires GrewToward(t.right, r', k)
    ensures
      var n := MakeNode(t.left, t.key, r');
      InsertShape(n, k) && -2 <= Bf(n) <= 1 &&
      KeySet(n) == KeySet(t) + {k} &&
      (Bf(n) == -2 ==> Height(n) == Height(t) + 1) &&
      (Bf(n) >= -1 ==> Height(t) <= Height(n) <= Height(t) + 1 && GrewToward(t, n, k)) &&
      (k in KeySet(t) ==> n == t)
  {
    InsertedRightShape(t, k, r');
    InsertedRightHeight(t, k, r');
  }

  lemma InsertedRightShape(t: Tree, k: Key, r': Tree)
    requires Valid(t) && t.Node? && Cmp(k, t.key) > 0
    requires Valid(r') && KeySet(r') == KeySet(t.right) + {k}
    requires k in KeySet(t.right) ==> r' == t.right
    requires Height(t.right) <= Height(r') <= Height(t.right) + 1
    requires GrewToward(t.right, r', k)
    ensures
      var n := MakeNode(t.left, t.key, r');
      InsertShape(n, k) && -2 <= Bf(n) <= 1 && KeySet(n) == KeySet(t) + {k} && (k in KeySet(t) ==> n == t)
  {
    var n := MakeNode(t.left, t.key, r');
    CmpFlip(k, t.key);
    BeforeIrreflexive(k);
    if Bf(n) == -2 {
      assert t.right.Node?;
      if k in KeySet(t.right) {
      } else {
        assert t.right.key != k;
        BeforeTotal(k, t.right.key);
      }
    }
  }

  lemma InsertedRightHeight(t: Tree, k: Key, r': Tree)
    requires Valid(t) && t.Node? && Cmp(k, t.key) > 0
    requires Valid(r') && KeySet(r') == KeySet(t.right) + {k}
    requires k in KeySet(t.right) ==> r' == t.right
    requires Height(t.right) <= Height(r') <= Height(t.right) + 1
    requires GrewToward(t.right, r', k)
    ensures
      var n := MakeNode(t.left, t.key, r');
      (Bf(n) == -2 ==> Height(n) == Height(t) + 1) &&
      (Bf(n) >= -1 ==> Height(t) <= Height(n) <= Height(t) + 1 && GrewToward(t, n, k))
  {
    var n := MakeNode(t.left, t.key, r');
    CmpFlip(k, t.key);
    BeforeIrreflexive(k);
    if Bf(n) == -2 {
      assert t.right.Node?;
      if k in KeySet(t.right) {
      } else {
        assert t.right.key != k;
        BeforeTotal(k, t.right.key);
      }
    }
    if Height(n) == Height(t) + 1 {
      BeforeAsymmetric(t.key, k);
    }
  }

  // ------------------------------------------------------------------ delete

  /** `_minValueNode` as a specification: the key of the leftmost node. */
  function MinKey(t: Tree): (m: Key)
    requires t.Node?
    ensures m in KeySet(t)
  {
    if t.left.Leaf? then t.key else MinKey(t.left)
  }

  lemma {:induction false} MinKeyIsLeast(t: Tree)
    requires t.Node? && IsBst(t)
    ensures forall y :: y in KeySet(t) && y != MinKey(t) ==> Before(MinKey(t), y)
  {
    if t.left.Node? {
      MinKeyIsLeast(t.left);
      var m := MinKey(t);
      forall y | y in KeySet(t.right) ensures Before(m, y) {
        BeforeTransitive(m, t.key, y);
      }
    }
  }

  /** `_minValueNode`: walk left from a non-empty subtree and report the last key. */
  method MinValueNode(t: Tree) returns (m: Key)
    requires t.Node?
    ensures m == MinKey(t)
  {
    var cur := t;
    while cur.left.Node?
      invariant cur.Node? && MinKey(cur) == MinKey(t)
      decreases cur
    {
      cur := cur.left;
    }
    m := cur.key;
  }

  /**
   * The rebalancing tail of `_delete`: `updateHeight`, then the four rotation
   * cases chosen by the balance factors of the node and of its taller child.
   */
  function DeleteFix(n: Tree): (r: Tree)
    requires n.Node? && IsBst(n) && Valid(n.left) && Valid(n.right)
    requires -2 <= Height(n.left) - Height(n.right) <= 2
    ensures Valid(r) && InOrder(r) == InOrder(n) && KeySet(r) == KeySet(n)
    ensures -1 <= Height(n.left) - Height(n.right) <= 1 ==> r == MakeNode(n.left, n.key, n.right)
    ensures Height(MakeNode(n.left, n.key, n.right)) - 1 <= Height(r) <= Height(MakeNode(n.left, n.key, n.right))
  {
    var m := MakeNode(n.left, n.key, n.right);
    var bf := Height(m.left) - Height(m.right);
    if bf > 1 && Height(m.left.left) - Height(m.left.right) >= 0 then
      RotateRightValid(m);
      RotateRight(m)
    else if bf > 1 && Height(m.left.left) - Height(m.left.right) < 0 then
      RotateLeftRightValid(m);
      RotateRight(m.(left := RotateLeft(m.left)))
    else if bf < -1 && Height(m.right.left) - Height(m.right.right) <= 0 then
      RotateLeftValid(m);
      RotateLeft(m)
    else if bf < -1 && Height(m.right.left) - Height(m.right.right) > 0 then
      RotateRightLeftValid(m);
      RotateLeft(m.(right := RotateRight(m.right)))
    else
      m
  }

  /** A node's own key is in neither subtree. */
  lemma RootNotInChildren(t: Tree)
    requires t.Node? && IsBst(t)
    ensures t.key !in KeySet(t.left) && t.key !in KeySet(t.right)
  {
    BeforeIrreflexive(t.key);
  }

  lemma ValidChildren(t: Tree)
    requires t.Node? && Valid(t)
    ensures Valid(t.left) && Valid(t.right) && -1 <= Bf(t) <= 1
  {
  }

  /** An AVL tree whose node stores its correct height is rebuilt unchanged by `updateHeight`. */
  lemma MakeNodeSame(t: Tree)
    requires t.Node? && HeightsOk(t)
    ensures MakeNode(t.left, t.key, t.right) == t
  {
  }

  /**
   * `_delete`: remove a key if present. An absent key leaves the tree as it is.
   * The result is again an AVL tree, at most one level shorter.
   */
  function Delete(t: Tree, k: Key): (r: Tree)
    requires Valid(t)
    ensures Valid(r)
    ensures KeySet(r) == KeySet(t) - {k}
    ensures k !in KeySet(t) ==> r == t
    ensures Height(t) - 1 <= Height(r) <= Height(t)
    decreases t, 1
  {
    match t
    case Leaf => Leaf
    case Node(l, x, rt, h) =>
      var c := Cmp(k, x);
      if c < 0 then
        var l' := Delete(l, k);
        DeletedLeft(t, k, l');
        DeleteFix(Node(l', x, rt, h))
      else if c > 0 then
        var r' := Delete(rt, k);
        DeletedRight(t, k, r');
        DeleteFix(Node(l, x, r', h))
      else
        CmpZero(k, x);
        RemoveRoot(t)
  }

  /**
   * The matching-key branch of `_delete`: a node with at most one child is
   * replaced by that child; a node with two children takes the minimum key of
   * its right subtree, which is then deleted from that subtree.
   */
  function RemoveRoot(t: Tree): (r: Tree)
    requires Valid(t) && t.Node?
    ensures Valid(r)
    ensures KeySet(r) == KeySet(t) - {t.key}
    ensures Height(t) - 1 <= Height(r) <= Height(t)
    decreases t, 0
  {
    if t.left.Leaf? || t.right.Leaf? then
      var child := if t.left.Node? then t.left else t.right;
      if child.Leaf? then
        RootNotInChildren(t);
        Leaf
      else
        ReplacedByChild(t, child);
        DeleteFix(child)
    else
      var m := MinKey(t.right);
      var r' := Delete(t.right, m);
      DeletedMin(t, m, r');
      DeleteFix(Node(t.left, m, r', t.height))
  }

  /** Descending into the left child: the rebalanced node is the tree without `k`. */
  lemma DeletedLeft(t: Tree, k: Key, l': Tree)
    requires Valid(t) && t.Node? && Cmp(k, t.key) < 0
    requires Valid(l') && KeySet(l') == KeySet(t.left) - {k} && (k !in KeySet(t.left) ==> l' == t.left)
    requires Height(t.left) - 1 <= Height(l') <= Height(t.left)
    ensures var n := t.(left := l');
      IsBst(n) && Valid(n.left) && Valid(n.right) &&
      -2 <= Height(n.left) - Height(n.right) <= 2 &&
      var r := DeleteFix(n);
      Valid(r) && KeySet(r) == KeySet(t) - {k} && (k !in KeySet(t) ==> r == t) &&
      Height(t) - 1 <= Height(r) <= Height(t)
  {
    CmpFlip(k, t.key);
    NotInOtherSide(t, k);
    var n := t.(left := l');
    assert IsBst(n);
    assert KeySet(n) == KeySet(t) - {k};
    if k !in KeySet(t) {
      MakeNodeSame(t);
    }
  }

  /** Descending into the right child: the rebalanced node is the tree without `k`. */
  lemma DeletedRight(t: Tree, k: Key, r': Tree)
    requires Valid(t) && t.Node? && Cmp(k, t.key) > 0
    requires Valid(r') && KeySet(r') == KeySet(t.right) - {k} && (k !in KeySet(t.right) ==> r' == t.right)
    requires Height(t.right) - 1 <= Height(r') <= Height(t.right)
    ensures var n := t.(right := r');
      IsBst(n) && Valid(n.left) && Valid(n.right) &&
      -2 <= Height(n.left) - Height(n.right) <= 2 &&
      var r := DeleteFix(n);
      Valid(r) && KeySet(r) == KeySet(t) - {k} && (k !in KeySet(t) ==> r == t) &&
      Height(t) - 1 <= Height(r) <= Height(t)
  {
    CmpFlip(k, t.key);
    NotInOtherSide(t, k);
    var n := t.(right := r');
    assert IsBst(n);
    assert KeySet(n) == KeySet(t) - {k};
    if k !in KeySet(t) {
      MakeNodeSame(t);
    }
  }

  /** A key ordered before the root is not in the right subtree, and one ordered after it not in the left. */
  lemma NotInOtherSide(t: Tree, k: Key)
    requires t.Node? && IsBst(t)
    ensures Before(k, t.key) ==> k !in KeySet(t.right) && k != t.key
    ensures Before(t.key, k) ==> k !in KeySet(t.left) && k != t.key
  {
    BeforeIrreflexive(k);
    if Before(k, t.key) && k in KeySet(t.right) {
      BeforeAsymmetric(k, t.key);
    }
    if Before(t.key, k) && k in KeySet(t.left) {
      BeforeAsymmetric(k, t.key);
    }
  }

  /** A node with at most one child: the child, rebuilt by `DeleteFix`, is unchanged. */
  lemma ReplacedByChild(t: Tree, child: Tree)
    requires Valid(t) && t.Node? && (t.left.Leaf? || t.right.Leaf?)
    requires child == (if t.left.Node? then t.left else t.right) && child.Node?
    ensures Valid(child.left) && Valid(child.right) && -1 <= Bf(child) <= 1
    ensures var r := DeleteFix(child);
      r == child && Valid(r) && KeySet(r) == KeySet(t) - {t.key} &&
      Height(t) - 1 <= Height(r) <= Height(t)
  {
    RootNotInChildren(t);
    ValidChildren(child);
    MakeNodeSame(child);
  }

  /** A node with two children: replacing its key by the right minimum keeps the order. */
  lemma DeletedMin(t: Tree, m: Key, r': Tree)
    requires Valid(t) && t.Node? && t.left.Node? && t.right.Node?
    requires m == MinKey(t.right)
    requires Valid(r') && KeySet(r') == KeySet(t.right) - {m}
    requires Height(t.right) - 1 <= Height(r') <= Height(t.right)
    ensures var n := Node(t.left, m, r', t.height);
      IsBst(n) && Valid(n.left) && Valid(n.right) &&
      -2 <= Height(n.left) - Height(n.right) <= 2 &&
      var r := DeleteFix(n);
      Valid(r) && KeySet(r) == KeySet(t) - {t.key} &&
      Height(t) - 1 <= Height(r) <= Height(t)
  {
    DeletedMinOrder(t, m, r');
    DeletedMinKeys(t, m, r');
  }

  /** The node rebuilt around the right minimum is ordered. */
  lemma DeletedMinOrder(t: Tree, m: Key, r': Tree)
    requires Valid(t) && t.Node? && t.left.Node? && t.right.Node?
    requires m == MinKey(t.right)
    requires Valid(r') && KeySet(r') == KeySet(t.right) - {m}
    ensures IsBst(Node(t.left, m, r', t.height))
  {
    MinKeyIsLeast(t.right);
    forall y | y in KeySet(t.left) ensures Before(y, m) {
      BeforeTransitive(y, t.key, m);
    }
    forall y | y in KeySet(r') ensures Before(m, y) {
      assert y in KeySet(t.right) && y != m;
    }
  }

  /** Moving the right minimum up to the root removes exactly the old root key. */
  lemma DeletedMinKeys(t: Tree, m: Key, r': Tree)
    requires IsBst(t) && t.Node? && t.right.Node?
    requires m == MinKey(t.right)
    requires KeySet(r') == KeySet(t.right) - {m}
    ensures KeySet(Node(t.left, m, r', t.height)) == KeySet(t) - {t.key}
  {
    RootNotInChildren(t);
  }

  // ------------------------------------------------------------ root updates

  /**
   * `insert(score, name)`: the root becomes `_insert(root, score, name)`. The
   * new tree is again an AVL tree and holds the old keys and the new one.
   */
  method InsertKey(t: Tree, k: Key) returns (t': Tree)
    requires Valid(t)
    ensures Valid(t') && KeySet(t') == KeySet(t) + {k}
    ensures k in KeySet(t) ==> t' == t
  {
    t' := Insert(t, k);
  }

  /**
   * `delete(score, name)`: the root becomes `_delete(root, score, name)`. The
   * new tree is again an AVL tree and holds the old keys but that one.
   */
  method DeleteKey(t: Tree, k: Key) returns (t': Tree)
    requires Valid(t)
    ensures Valid(t') && KeySet(t') == KeySet(t) - {k}
    ensures k !in KeySet(t) ==> t' == t
  {
    t' := Delete(t, k);
  }

  // ---------------------------------------------------------- listing, rank

  /** The listing is strictly sorted in leaderboard order and lists exactly the keys. */
  lemma {:induction false} InOrderSorted(t: Tree)
    requires IsBst(t)
    ensures StrictlySorted(InOrder(t))
    ensures Elements(InOrder(t)) == KeySet(t)
  {
    match t
    case Leaf =>
    case Node(l, k, r, _) =>
      InOrderSorted(l);
      InOrderSorted(r);
      JoinSorted(InOrder(l), k, InOrder(r));
      JoinElements(InOrder(l), k, InOrder(r));
  }

  lemma JoinElements(a: seq<Key>, k: Key, b: seq<Key>)
    ensures Elements(a + [k] + b) == Elements(a) + {k} + Elements(b)
  {
  }

  /** Sorted runs on either side of a separating key join into a sorted run. */
  lemma JoinSorted(a: seq<Key>, k: Key, b: seq<Key>)
    requires StrictlySorted(a) && StrictlySorted(b)
    requires forall x :: x in Elements(a) ==> Before(x, k)
    requires forall x :: x in Elements(b) ==> Before(k, x)
    ensures StrictlySorted(a + [k] + b)
  {
    var s := a + [k] + b;
    forall i, j | 0 <= i < j < |s| ensures Before(s[i], s[j]) {
      if j < |a| {
        assert s[i] == a[i] && s[j] == a[j];
      } else if i < |a| {
        assert s[i] == a[i] && a[i] in Elements(a);
        if j > |a| {
          assert s[j] == b[j - |a| - 1] && b[j - |a| - 1] in Elements(b);
          BeforeTransitive(s[i], k, s[j]);
        }
      } else if i == |a| {
        assert s[j] == b[j - |a| - 1] && b[j - |a| - 1] in Elements(b);
      } else {
        assert s[i] == b[i - |a| - 1] && s[j] == b[j - |a| - 1];
      }
    }
  }

  /** Trees with the same keys list them identically, whatever their shapes. */
  lemma SameKeysSameListing(t1: Tree, t2: Tree)
    requires IsBst(t1) && IsBst(t2) && KeySet(t1) == KeySet(t2)
    ensures InOrder(t1) == InOrder(t2)
  {
    InOrderSorted(t1);
    InOrderSorted(t2);
    SortedUnique(InOrder(t1), InOrder(t2));
  }

  /**
   * `rankOf`: scan the listing for the name and report its 1-based position,
   * or -1 when no entry has that name.
   */
  method RankOf(t: Tree, name: string) returns (rank: int)
    ensures rank == -1 <==> forall i :: 0 <= i < |InOrder(t)| ==> InOrder(t)[i].name != name
    ensures rank != -1 ==> 1 <= rank <= |InOrder(t)| && InOrder(t)[rank - 1].name == name
    ensures rank != -1 ==> forall i :: 0 <= i < rank - 1 ==> InOrder(t)[i].name != name
  {
    var arr := InOrder(t);
    for i := 0 to |arr|
      invariant forall j :: 0 <= j < i ==> arr[j].name != name
    {
      if arr[i].name == name {
        assert InOrder(t)[i].name == name;
        return i + 1;
      }
    }
    return -1;
  }

  /**
   * When names are unique in the tree, the position of a key in the listing is
   * the number of keys that precede it, so its rank is one more than that.
   */
  lemma RankCountsBefore(t: Tree, k: Key)
    requires IsBst(t) && UniqueNames(KeySet(t)) && k in KeySet(t)
    ensures IndexOfName(InOrder(t), k.name) == |set y | y in KeySet(t) && Before(y, k)|
  {
    var s := InOrder(t);
    InOrderSorted(t);
    assert k in Elements(s);
    var i :| 0 <= i < |s| && s[i] == k;
    UniqueNamesIndex(s, i);
    SortedCountBefore(s, i);
  }
}
