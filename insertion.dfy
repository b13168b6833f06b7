/** Insertion (`insertNode`): recursive descent to an empty spot, a new
    height-1 leaf there, and on the way back up a height recomputation and a
    `balanceNode` at every node of the path. A duplicate key stops the descent
    and nothing is changed. */
module Insertion {
  import opened StringOrder
  import opened Entries
  import opened AvlNode
  import opened Rebalance

  /** `insertNode(current, key, value)`: returns the subtree's new root and
      whether the key was inserted. It fails exactly when the key is already
      present, and then returns the subtree untouched. On success the
      in-order contents are the old ones with the new entry in its sorted
      place, and an AVL tree stays an AVL tree whose height grew by at most
      one. */
  method InsertNode(current: Tree, key: string, value: Value) returns (current': Tree, success: bool)
    requires Ordered(current)
    ensures success <==> key !in Keys(current)
    ensures !success ==> current' == current
    ensures success ==> InOrder(current') == InsertSorted(InOrder(current), Entry(key, value))
    ensures success ==> Keys(current') == Keys(current) + {key}
    ensures Ordered(current')
    ensures current.Nil? ==> current' == Node(key, value, 1, Nil, Nil)
    ensures Avl(current) ==>
              Avl(current') && NodeHeight(current) <= NodeHeight(current') <= NodeHeight(current) + 1
    decreases current
  {
    if current.Nil? {
      current' := Node(key, value, 1, Nil, Nil);
      return current', true;
    }
    if key == current.key {
      return current, false;
    }
    var child;
    if Less(key, current.key) {
      child, success := InsertNode(current.left, key, value);
      SideOfKey(current, key);
      if !success {
        return current, false;
      }
      current' := current.(left := child);
      InsertedLeft(current, child, Entry(key, value));
      AddedKeyOrdered(current, current', key);
    } else {
      child, success := InsertNode(current.right, key, value);
      SideOfKey(current, key);
      if !success {
        return current, false;
      }
      current' := current.(right := child);
      InsertedRight(current, child, Entry(key, value));
      AddedKeyOrdered(current, current', key);
    }

    // Recompute the height from the children's cached heights, then rebalance.
    var leftHeight, rightHeight := 0, 0;
    if current'.left.Node? {
      leftHeight := current'.left.height;
    }
    if current'.right.Node? {
      rightHeight := current'.right.height;
    }
    ghost var stale := current';
    current' := current'.(height := 1 + Max(leftHeight, rightHeight));
    HeightIgnored(stale, current');
    ghost var unbalanced := current';
    current' := BalanceNode(current');
    if Avl(current) {
      GrownChild(current, unbalanced);
    }
  }

  /** In a search tree a key other than the root's can only be on the side
      the comparison picks. */
  lemma SideOfKey(t: Tree, key: string)
    requires t.Node? && Ordered(t) && key != t.key
    ensures Less(key, t.key) ==> (key in Keys(t) <==> key in Keys(t.left))
    ensures !Less(key, t.key) ==> Less(t.key, key) && (key in Keys(t) <==> key in Keys(t.right))
  {
    LessTotal(key, t.key);
    if Less(key, t.key) && key in Keys(t.right) {
      LessAsymmetric(key, t.key);
    }
  }

  /** Inserting into the left subtree inserts into the whole tree. */
  lemma InsertedLeft(t: Tree, child: Tree, e: Entry)
    requires t.Node? && Less(e.key, t.key)
    requires InOrder(child) == InsertSorted(InOrder(t.left), e)
    ensures InOrder(t.(left := child)) == InsertSorted(InOrder(t), e)
  {
    var l, c, r := InOrder(t.left), Entry(t.key, t.value), InOrder(t.right);
    var cr := [c] + r;
    InOrderSplit(t);
    InOrderSplit(t.(left := child));
    InsertSortedIntoLeft(l, cr, e);
  }

  /** Inserting into the right subtree inserts into the whole tree. */
  lemma InsertedRight(t: Tree, child: Tree, e: Entry)
    requires t.Node? && Ordered(t) && Less(t.key, e.key)
    requires InOrder(child) == InsertSorted(InOrder(t.right), e)
    ensures InOrder(t.(right := child)) == InsertSorted(InOrder(t), e)
  {
    var l, c, r := InOrder(t.left), Entry(t.key, t.value), InOrder(t.right);
    var lc := l + [c];
    assert InOrder(t) == lc + r;
    InOrderBounds(t);
    NothingBelowIsAbove(l, t.key, e.key);
    assert forall i :: 0 <= i < |lc| ==> !Less(e.key, lc[i].key) by {
      LessAsymmetric(t.key, e.key);
      assert forall i :: 0 <= i < |l| ==> lc[i] == l[i];
    }
    InsertSortedIntoRight(lc, r, e);
    assert InOrder(t.(right := child)) == lc + InOrder(child);
  }

  /** A key added on the side of the node it belongs to keeps the tree
      ordered. */
  lemma AddedKeyOrdered(t: Tree, n: Tree, key: string)
    requires t.Node? && Ordered(t) && n.Node? && n.key == t.key
    requires (Less(key, t.key) && n.right == t.right && Ordered(n.left)
              && Keys(n.left) == Keys(t.left) + {key})
          || (Less(t.key, key) && n.left == t.left && Ordered(n.right)
              && Keys(n.right) == Keys(t.right) + {key})
    ensures Ordered(n) && Keys(n) == Keys(t) + {key}
  {
  }

  lemma NothingBelowIsAbove(s: seq<Entry>, k: string, x: string)
    requires AllBelow(s, k) && Less(k, x)
    ensures forall i :: 0 <= i < |s| ==> !Less(x, s[i].key)
  {
    forall i | 0 <= i < |s| ensures !Less(x, s[i].key) {
      LessTransitive(s[i].key, k, x);
      LessAsymmetric(s[i].key, x);
    }
  }

  /** After one subtree of an AVL node grew by at most one and the node's
      height was recomputed, the node is ready to balance, and rebalancing it
      leaves a height between the old one and one more. */
  lemma GrownChild(t: Tree, n: Tree)
    requires Avl(t) && t.Node? && n.Node?
    requires n.height == 1 + Max(NodeHeight(n.left), NodeHeight(n.right))
    requires (n.right == t.right && Avl(n.left)
              && NodeHeight(t.left) <= NodeHeight(n.left) <= NodeHeight(t.left) + 1)
          || (n.left == t.left && Avl(n.right)
              && NodeHeight(t.right) <= NodeHeight(n.right) <= NodeHeight(t.right) + 1)
    ensures ReadyToBalance(n)
    ensures -1 <= BalanceFactor(n) <= 1 ==> NodeHeight(t) <= NodeHeight(n) <= NodeHeight(t) + 1
    ensures !(-1 <= BalanceFactor(n) <= 1) ==> NodeHeight(n) == NodeHeight(t) + 1
  {
  }
}
