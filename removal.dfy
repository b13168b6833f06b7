/** Removal (`remove(current, key)` and `removeNode`): a recursive search for
    the key, the node taken out according to its number of children, and on
    the way back up a height recomputation and a `balanceNode` at every node
    of the path. A node with two children is overwritten with its in-order
    successor (found by walking left from its right child), and the successor
    is then removed from the right subtree. That overwritten node's own height
    is not recomputed and it is not rebalanced. */
module Removal {
  import opened StringOrder
  import opened Entries
  import opened AvlNode
  import opened Rebalance

  /** The node holding `key` has two children, following the same search path
      as `remove`. */
  ghost predicate TwoChildrenAt(t: Tree, key: string)
  {
    t.Node? &&
      if Less(key, t.key) then TwoChildrenAt(t.left, key)
      else if Less(t.key, key) then TwoChildrenAt(t.right, key)
      else t.left.Node? && t.right.Node?
  }

  /** What the two-child case of `removeNode` makes of `t`: a node with `t`'s
      cached height and left subtree, holding the first in-order entry of
      `t`'s right subtree; that right subtree, if AVL, is replaced by an AVL
      tree at most one level lower. */
  ghost predicate SuccessorOverwrite(t: Tree, t': Tree)
    requires t.Node? && t.right.Node?
  {
    t'.Node? && t'.height == t.height && t'.left == t.left
    && Entry(t'.key, t'.value) == InOrder(t.right)[0]
    && (Avl(t.right) ==>
          Avl(t'.right) && NodeHeight(t.right) - 1 <= NodeHeight(t'.right) <= NodeHeight(t.right))
  }

  /** The successor search of `removeNode`: from `r`, follow left children
      until there is none. The node reached holds the first in-order entry of
      `r`. */
  method FindSuccessor(r: Tree) returns (smallest: Tree)
    requires r.Node?
    ensures smallest.Node? && smallest.left.Nil?
    ensures InOrder(r)[0] == Entry(smallest.key, smallest.value)
  {
    smallest := r;
    while smallest.left.Node?
      invariant smallest.Node? && |InOrder(smallest)| > 0
      invariant InOrder(smallest)[0] == InOrder(r)[0]
      decreases smallest
    {
      InOrderNonEmpty(smallest.left);
      InOrderSplit(smallest);
      smallest := smallest.left;
    }
  }

  /** private `remove(current, key)`: returns the subtree's new root and
      whether the key was found. It fails exactly when the key is absent, and
      then returns the subtree untouched. Otherwise the entry with that key is
      gone and nothing else changes in the in-order contents. When the removed
      node had at most one child, an AVL tree stays an AVL tree whose height
      shrank by at most one. When the key is at the root and the root has two
      children, the result is the root overwritten by its successor, with its
      old cached height and left subtree; AVL shape is then not guaranteed. */
  method RemoveAt(current: Tree, key: string) returns (current': Tree, found: bool)
    requires Ordered(current)
    ensures found <==> key in Keys(current)
    ensures !found ==> current' == current
    ensures found ==> InOrder(current') == DeleteKey(InOrder(current), key)
    ensures Keys(current') == Keys(current) - {key}
    ensures Ordered(current')
    ensures Avl(current) && !TwoChildrenAt(current, key) ==>
              Avl(current') && NodeHeight(current) - 1 <= NodeHeight(current') <= NodeHeight(current)
    ensures current.Node? && key == current.key && current.left.Node? && current.right.Node? ==>
              SuccessorOverwrite(current, current')
    decreases current, 1
  {
    if current.Nil? {
      return current, false;
    }
    KeyOnSide(current, key);
    OneChildPath(current, key);
    if Less(key, current.key) {
      var child;
      child, found := RemoveAt(current.left, key);
      if !found {
        return current, false;
      }
      current' := current.(left := child);
      DeletedLeft(current, child, key);
      RemovedLeftOrdered(current, child, key);
    } else if Less(current.key, key) {
      var child;
      child, found := RemoveAt(current.right, key);
      if !found {
        return current, false;
      }
      current' := current.(right := child);
      DeletedRight(current, child, key);
      RemovedRightOrdered(current, child, key);
    } else {
      current', found := RemoveNode(current);
      return;
    }

    // Recompute the height from the children's cached heights, then rebalance.
    var leftHeight, rightHeight := 0, 0;
    if current'.left.Node? {
      leftHeight := current'.left.height;
    }
    if current'.right.Node? {
      rightHeight := current'.right.height;
    }
    ghost var stale := current';
    current' := current'.(height := 1 + Max(leftHeight, rightHeight));
    HeightIgnored(stale, current');
    ghost var unbalanced := current';
    current' := BalanceNode(current');
    if Avl(current) && !TwoChildrenAt(current, key) {
      ShrunkChild(current, unbalanced);
    }
  }

  /** `removeNode(current)`: takes out the node at the root of `current`. A
      leaf is replaced by nothing and a node with one child by that child. A
      node with two children takes its successor's key and value, keeps its
      cached height, and has the successor removed from its right subtree.
      Only an absent node cannot be removed. */
  method RemoveNode(current: Tree) returns (current': Tree, removed: bool)
    requires Ordered(current)
    ensures removed <==> current.Node?
    ensures current.Nil? ==> current' == Nil
    ensures current.Node? ==> InOrder(current') == DeleteKey(InOrder(current), current.key)
    ensures current.Node? ==> Keys(current') == Keys(current) - {current.key}
    ensures Ordered(current')
    ensures current.Node? && current.left.Nil? ==> current' == current.right
    ensures current.Node? && current.left.Node? && current.right.Nil? ==> current' == current.left
    ensures current.Node? && current.left.Node? && current.right.Node? ==> SuccessorOverwrite(current, current')
    ensures Avl(current) && current.Node? && !(current.left.Node? && current.right.Node?) ==>
              Avl(current') && NodeHeight(current') == NodeHeight(current) - 1
    decreases current, 0
  {
    if current.Nil? {
      return current, false;
    }
    var nChildren := NumChildren(current);

    // No child: the node goes away.
    if IsLeaf(current) {
      DeletedRoot(current);
      return Nil, true;
    }

    // One child: the child takes the node's place.
    if nChildren == 1 {
      var child := Nil;
      if current.left.Node? {
        child := current.left;
      } else {
        child := current.right;
      }
      DeletedRoot(current);
      if Avl(current) {
        OnlyChildHeight(current);
      }
      return child, true;
    }

    // Two children: copy the successor's entry into this node, then remove
    // the successor from the right subtree.
    var smallestInRight := FindSuccessor(current.right);
    var newKey := smallestInRight.key;
    var newValue := smallestInRight.value;
    current' := current.(key := newKey, value := newValue);
    LeftmostKey(current.right);
    var right;
    right, removed := RemoveAt(current.right, smallestInRight.key);
    current' := current'.(right := right);
    DeletedSuccessor(current, Entry(newKey, newValue), right);
    DeletedSuccessorOrdered(current, Entry(newKey, newValue), right);
    if Avl(current.right) {
      SuccessorHasNoTwoChildren(current.right);
    }
  }

  /** In a search tree the comparisons `remove` makes send it to the only side
      that can hold the key, and when neither holds the key is the node's. */
  lemma KeyOnSide(t: Tree, key: string)
    requires t.Node? && Ordered(t)
    ensures Less(key, t.key) ==> key != t.key && (key in Keys(t) <==> key in Keys(t.left))
    ensures Less(t.key, key) ==> key != t.key && (key in Keys(t) <==> key in Keys(t.right))
    ensures !Less(key, t.key) && !Less(t.key, key) ==> key == t.key
  {
    LessTotal(key, t.key);
    LessIrreflexive(key);
    if Less(key, t.key) && key in Keys(t.right) {
      LessAsymmetric(key, t.key);
    }
    if Less(t.key, key) && key in Keys(t.left) {
      LessAsymmetric(t.key, key);
    }
  }

  /** Below an AVL node, the subtree `remove` descends into is AVL, and the
      key's node there has two children only if it has in the whole tree. */
  lemma OneChildPath(t: Tree, key: string)
    requires t.Node?
    ensures Avl(t) ==> Avl(t.left) && Avl(t.right)
    ensures Less(key, t.key) ==> (TwoChildrenAt(t, key) <==> TwoChildrenAt(t.left, key))
    ensures !Less(key, t.key) && Less(t.key, key) ==> (TwoChildrenAt(t, key) <==> TwoChildrenAt(t.right, key))
  {
  }

  /** No entry above `k` has a key below `k`. */
  lemma AboveIsAbsent(s: seq<Entry>, k: string, x: string)
    requires AllAbove(s, k) && Less(x, k)
    ensures Absent(s, x)
  {
    forall i | 0 <= i < |s| ensures s[i].key != x {
      LessAsymmetric(x, k);
    }
  }

  /** No entry below `k` has a key above `k`. */
  lemma BelowIsAbsent(s: seq<Entry>, k: string, x: string)
    requires AllBelow(s, k) && Less(k, x)
    ensures Absent(s, x)
  {
    forall i | 0 <= i < |s| ensures s[i].key != x {
      LessAsymmetric(k, x);
    }
  }

  /** Deleting from the left subtree deletes from the whole tree. */
  lemma DeletedLeft(t: Tree, child: Tree, key: string)
    requires t.Node? && Ordered(t) && Less(key, t.key)
    requires InOrder(child) == DeleteKey(InOrder(t.left), key)
    ensures InOrder(t.(left := child)) == DeleteKey(InOrder(t), key)
  {
    var l, c, r := InOrder(t.left), Entry(t.key, t.value), InOrder(t.right);
    var cr := [c] + r;
    InOrderSplit(t);
    InOrderSplit(t.(left := child));
    InOrderBounds(t);
    AboveIsAbsent(r, t.key, key);
    LessIrreflexive(key);
    assert Absent(cr, key) by {
      assert forall i :: 0 < i < |cr| ==> cr[i] == r[i - 1];
    }
    DeleteKeyFromLeft(l, cr, key);
  }

  /** Deleting from the right subtree deletes from the whole tree. */
  lemma DeletedRight(t: Tree, child: Tree, key: string)
    requires t.Node? && Ordered(t) && Less(t.key, key)
    requires InOrder(child) == DeleteKey(InOrder(t.right), key)
    ensures InOrder(t.(right := child)) == DeleteKey(InOrder(t), key)
  {
    var l, c, r := InOrder(t.left), Entry(t.key, t.value), InOrder(t.right);
    var lc := l + [c];
    assert InOrder(t) == lc + r;
    InOrderBounds(t);
    BelowIsAbsent(l, t.key, key);
    LessIrreflexive(key);
    assert Absent(lc, key) by {
      assert forall i :: 0 <= i < |l| ==> lc[i] == l[i];
    }
    DeleteKeyFromRight(lc, r, key);
    assert InOrder(t.(right := child)) == lc + InOrder(child);
  }

  /** A key removed from the left subtree keeps the tree ordered. */
  lemma RemovedLeftOrdered(t: Tree, child: Tree, key: string)
    requires t.Node? && Ordered(t) && Less(key, t.key)
    requires Ordered(child) && Keys(child) == Keys(t.left) - {key}
    ensures Ordered(t.(left := child)) && Keys(t.(left := child)) == Keys(t) - {key}
  {
    var n := t.(left := child);
    LessAsymmetric(key, t.key);
    assert key !in Keys(t.right) && key != t.key;
    assert Keys(n) == Keys(child) + {t.key} + Keys(t.right);
    forall x | x in Keys(child) ensures Less(x, t.key) {
      assert x in Keys(t.left);
    }
  }

  /** A key removed from the right subtree keeps the tree ordered. */
  lemma RemovedRightOrdered(t: Tree, child: Tree, key: string)
    requires t.Node? && Ordered(t) && Less(t.key, key)
    requires Ordered(child) && Keys(child) == Keys(t.right) - {key}
    ensures Ordered(t.(right := child)) && Keys(t.(right := child)) == Keys(t) - {key}
  {
    var n := t.(right := child);
    LessAsymmetric(t.key, key);
    assert key !in Keys(t.left) && key != t.key;
    assert Keys(n) == Keys(t.left) + {t.key} + Keys(child);
    forall x | x in Keys(child) ensures Less(t.key, x) {
      assert x in Keys(t.right);
    }
  }

  /** Taking out a root with at most one child leaves the other side. */
  lemma DeletedRoot(t: Tree)
    requires t.Node? && Ordered(t) && (t.left.Nil? || t.right.Nil?)
    ensures t.left.Nil? ==> InOrder(t.right) == DeleteKey(InOrder(t), t.key)
    ensures t.right.Nil? ==> InOrder(t.left) == DeleteKey(InOrder(t), t.key)
    ensures Keys(t) - {t.key} == Keys(t.left) + Keys(t.right)
  {
    InOrderBounds(t);
    LessIrreflexive(t.key);
    var l, c, r := InOrder(t.left), Entry(t.key, t.value), InOrder(t.right);
    if t.left.Nil? {
      assert InOrder(t) == [c] + r;
    } else {
      assert InOrder(t) == l + [c];
      assert Absent(l, t.key);
      DeleteKeyFromRight(l, [c], t.key);
    }
  }

  /** In an AVL tree a node with at most one child lies one level above what
      replaces it; a node with exactly one child has height 2 and that child
      is a leaf. */
  lemma OnlyChildHeight(t: Tree)
    requires Avl(t) && t.Node? && (t.left.Nil? || t.right.Nil?)
    ensures NodeHeight(t.left) + NodeHeight(t.right) == NodeHeight(t) - 1
    ensures Avl(t.left) && Avl(t.right)
    ensures t.left.Node? || t.right.Node? ==> NodeHeight(t) == 2
    ensures t.left.Node? ==> t.left.left.Nil? && t.left.right.Nil?
    ensures t.right.Node? ==> t.right.left.Nil? && t.right.right.Nil?
  {
    if t.left.Node? {
      OnlyChildIsLeaf(t.left);
    } else if t.right.Node? {
      OnlyChildIsLeaf(t.right);
    }
  }

  /** A node of cached height at most one under a sound cache is a leaf. */
  lemma OnlyChildIsLeaf(c: Tree)
    requires c.Node? && HeightsOk(c) && c.height <= 1
    ensures c.height == 1 && c.left.Nil? && c.right.Nil?
  {
  }

  /** Every key of a search tree is its first in-order key or above it. */
  lemma LeftmostKey(r: Tree)
    requires r.Node? && Ordered(r)
    ensures InOrder(r)[0].key in Keys(r)
    ensures forall x :: x in Keys(r) ==> x == InOrder(r)[0].key || Less(InOrder(r)[0].key, x)
  {
    InOrderKeys(r);
    OrderedIsSorted(r);
  }

  /** The node holding the first in-order key has no left child. */
  lemma {:induction false} SuccessorHasNoTwoChildren(r: Tree)
    requires r.Node? && Ordered(r)
    ensures !TwoChildrenAt(r, InOrder(r)[0].key)
  {
    var k := InOrder(r)[0].key;
    if r.left.Nil? {
      assert InOrder(r) == [Entry(r.key, r.value)] + InOrder(r.right);
      LessIrreflexive(k);
    } else {
      InOrderNonEmpty(r.left);
      InOrderSplit(r);
      assert InOrder(r)[0] == InOrder(r.left)[0];
      LeftmostKey(r.left);
      assert Less(k, r.key);
      SuccessorHasNoTwoChildren(r.left);
    }
  }

  /** Overwriting a two-child node with its successor and dropping the
      successor from the right subtree deletes the node's own entry. */
  lemma DeletedSuccessor(t: Tree, s: Entry, right: Tree)
    requires t.Node? && t.right.Node? && Ordered(t)
    requires s == InOrder(t.right)[0]
    requires InOrder(right) == DeleteKey(InOrder(t.right), s.key)
    ensures InOrder(Node(s.key, s.value, t.height, t.left, right)) == DeleteKey(InOrder(t), t.key)
  {
    var l, c, r := InOrder(t.left), Entry(t.key, t.value), InOrder(t.right);
    var cr := [c] + r;
    var n := Node(s.key, s.value, t.height, t.left, right);
    assert InOrder(right) == r[1..];
    InOrderSplit(n);
    assert InOrder(n) == l + r by {
      assert [s] + r[1..] == r;
    }
    InOrderSplit(t);
    InOrderBounds(t);
    LessIrreflexive(t.key);
    assert Absent(l, t.key);
    assert DeleteKey(cr, t.key) == r by {
      assert cr[0] == c && cr[1..] == r;
    }
    DeleteKeyFromRight(l, cr, t.key);
  }

  /** The overwritten node is ordered and holds the old keys but its own. */
  lemma DeletedSuccessorOrdered(t: Tree, s: Entry, right: Tree)
    requires t.Node? && t.right.Node? && Ordered(t)
    requires s == InOrder(t.right)[0]
    requires Ordered(right) && Keys(right) == Keys(t.right) - {s.key}
    ensures Ordered(Node(s.key, s.value, t.height, t.left, right))
    ensures Keys(Node(s.key, s.value, t.height, t.left, right)) == Keys(t) - {t.key}
  {
    LeftmostKey(t.right);
    assert Less(t.key, s.key);
    forall x | x in Keys(t.left) ensures Less(x, s.key) {
      LessTransitive(x, t.key, s.key);
    }
    LessIrreflexive(t.key);
    forall x | x in Keys(t.left) ensures x != t.key {
      assert Less(x, t.key);
    }
  }

  /** After one subtree of an AVL node shrank by at most one and the node's
      height was recomputed, the node is ready to balance; if its height went
      down it needs no rotation. */
  lemma ShrunkChild(t: Tree, n: Tree)
    requires Avl(t) && t.Node? && n.Node?
    requires n.height == 1 + Max(NodeHeight(n.left), NodeHeight(n.right))
    requires (n.right == t.right && Avl(n.left)
              && NodeHeight(t.left) - 1 <= NodeHeight(n.left) <= NodeHeight(t.left))
          || (n.left == t.left && Avl(n.right)
              && NodeHeight(t.right) - 1 <= NodeHeight(n.right) <= NodeHeight(t.right))
    ensures ReadyToBalance(n)
    ensures NodeHeight(n) == NodeHeight(t)
            || (NodeHeight(n) == NodeHeight(t) - 1 && -1 <= BalanceFactor(n) <= 1)
  {
  }
}
