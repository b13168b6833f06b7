/** The rebalancer: `rotateToRight`, `rotateToLeft` and `balanceNode`. Each
    takes the root of a subtree and returns the subtree's new root, as the
    source's `AVLNode*&` parameter is rewritten in place. */
module Rebalance {
  import opened StringOrder
  import opened Entries
  import opened AvlNode

  /** What `balanceNode` needs to restore the AVL property at a node: both
      subtrees are AVL trees, the node's own cached height is recomputed, and
      the children's heights differ by at most two. */
  ghost predicate ReadyToBalance(node: Tree)
  {
    node.Node? && HeightsOk(node) && Balanced(node.left) && Balanced(node.right)
    && -2 <= BalanceFactor(node) <= 2
  }

  /** `rotateToRight`: the left child B takes the place of the node A, A
      becomes B's right child and takes B's old right child as its left one.
      A's height is recomputed first, then B's. */
  method RotateToRight(node: Tree) returns (root: Tree)
    requires node.Node? && node.left.Node?
    ensures root.Node? && root.right.Node?
    ensures root.key == node.left.key && root.value == node.left.value
    ensures root.left == node.left.left
    ensures root.right.key == node.key && root.right.value == node.value
    ensures root.right.left == node.left.right && root.right.right == node.right
    ensures root.right.height == 1 + Max(NodeHeight(node.left.right), NodeHeight(node.right))
    ensures root.height == 1 + Max(NodeHeight(node.left.left), root.right.height)
    ensures InOrder(root) == InOrder(node) && Keys(root) == Keys(node)
    ensures Ordered(node) ==> Ordered(root)
    ensures HeightsOk(node.left.left) && HeightsOk(node.left.right) && HeightsOk(node.right)
            ==> HeightsOk(root)
  {
    var hook := node.left;
    var hookRight := hook.right;
    var demoted := node.(left := hookRight);
    demoted := demoted.(height := 1 + Max(NodeHeight(demoted.left), NodeHeight(demoted.right)));
    hook := hook.(right := demoted);
    hook := hook.(height := 1 + Max(NodeHeight(hook.left), NodeHeight(hook.right)));
    root := hook;

    var a, b, c := InOrder(node.left.left), InOrder(node.left.right), InOrder(node.right);
    var eb, ea := Entry(node.left.key, node.left.value), Entry(node.key, node.value);
    assert InOrder(root) == a + [eb] + (b + [ea] + c);
    assert InOrder(node) == (a + [eb] + b) + [ea] + c;
    OrderedIffSorted(node);
    OrderedIffSorted(root);
  }

  /** `rotateToLeft`: the mirror image of `RotateToRight`. */
  method RotateToLeft(node: Tree) returns (root: Tree)
    requires node.Node? && node.right.Node?
    ensures root.Node? && root.left.Node?
    ensures root.key == node.right.key && root.value == node.right.value
    ensures root.right == node.right.right
    ensures root.left.key == node.key && root.left.value == node.value
    ensures root.left.right == node.right.left && root.left.left == node.left
    ensures root.left.height == 1 + Max(NodeHeight(node.left), NodeHeight(node.right.left))
    ensures root.height == 1 + Max(root.left.height, NodeHeight(node.right.right))
    ensures InOrder(root) == InOrder(node) && Keys(root) == Keys(node)
    ensures Ordered(node) ==> Ordered(root)
    ensures HeightsOk(node.left) && HeightsOk(node.right.left) && HeightsOk(node.right.right)
            ==> HeightsOk(root)
  {
    var hook := node.right;
    var hookLeft := hook.left;
    var demoted := node.(right := hookLeft);
    demoted := demoted.(height := 1 + Max(NodeHeight(demoted.left), NodeHeight(demoted.right)));
    hook := hook.(left := demoted);
    hook := hook.(height := 1 + Max(NodeHeight(hook.left), NodeHeight(hook.right)));
    root := hook;

    var a, b, c := InOrder(node.left), InOrder(node.right.left), InOrder(node.right.right);
    var ea, eb := Entry(node.key, node.value), Entry(node.right.key, node.right.value);
    assert InOrder(root) == (a + [ea] + b) + [eb] + c;
    assert InOrder(node) == a + [ea] + (b + [eb] + c);
    OrderedIffSorted(node);
    OrderedIffSorted(root);
  }

  /** `balanceNode`: if the left side is more than one taller, a single right
      rotation (left-left) or a left rotation of the left child followed by a
      right rotation (left-right); symmetrically on the right; otherwise the
      node is returned unchanged. The contents never change. Given a node
      ready to balance, the result is an AVL tree whose height is the node's
      or one less. */
  method BalanceNode(node: Tree) returns (balanced: Tree)
    ensures InOrder(balanced) == InOrder(node) && Keys(balanced) == Keys(node)
    ensures Ordered(node) ==> Ordered(balanced)
    ensures node.Nil? || -1 <= BalanceFactor(node) <= 1 ==> balanced == node
    ensures ReadyToBalance(node)
            ==> Avl(balanced) && NodeHeight(node) - 1 <= NodeHeight(balanced) <= NodeHeight(node)
  {
    if node.Nil? {
      return node;
    }
    var balance := NodeHeight(node.left) - NodeHeight(node.right);
    if balance > 1 {
      var llHeight := NodeHeight(node.left.left);
      var lrHeight := NodeHeight(node.left.right);
      if llHeight >= lrHeight {
        balanced := RotateToRight(node);
        if ReadyToBalance(node) {
          LeftLeftFix(node, balanced);
        }
      } else {
        var newLeft := RotateToLeft(node.left);
        var lifted := node.(left := newLeft);
        assert InOrder(lifted) == InOrder(node);
        OrderedIffSorted(node);
        OrderedIffSorted(lifted);
        balanced := RotateToRight(lifted);
        if ReadyToBalance(node) {
          LeftRightFix(node, newLeft, balanced);
        }
      }
      return;
    }
    if balance < -1 {
      var rrHeight := NodeHeight(node.right.right);
      var rlHeight := NodeHeight(node.right.left);
      if rrHeight >= rlHeight {
        balanced := RotateToLeft(node);
        if ReadyToBalance(node) {
          RightRightFix(node, balanced);
        }
      } else {
        var newRight := RotateToRight(node.right);
        var lifted := node.(right := newRight);
        assert InOrder(lifted) == InOrder(node);
        OrderedIffSorted(node);
        OrderedIffSorted(lifted);
        balanced := RotateToLeft(lifted);
        if ReadyToBalance(node) {
          RightLeftFix(node, newRight, balanced);
        }
      }
      return;
    }
    balanced := node;
  }

  /** The left-left case: one right rotation restores balance. */
  lemma LeftLeftFix(node: Tree, root: Tree)
    requires ReadyToBalance(node) && BalanceFactor(node) == 2
    requires node.left.Node? && NodeHeight(node.left.left) >= NodeHeight(node.left.right)
    requires root.Node? && root.right.Node?
    requires root.left == node.left.left
    requires root.right.left == node.left.right && root.right.right == node.right
    requires root.right.height == 1 + Max(NodeHeight(node.left.right), NodeHeight(node.right))
    requires root.height == 1 + Max(NodeHeight(node.left.left), root.right.height)
    ensures Avl(root) && NodeHeight(node) - 1 <= NodeHeight(root) <= NodeHeight(node)
  {
    var l, r, x := node.left, node.right, root.right;
    assert HeightsOk(l) && Balanced(l);
    assert HeightsOk(l.left) && HeightsOk(l.right) && HeightsOk(r);
    assert Balanced(l.left) && Balanced(l.right) && Balanced(r);
    assert HeightsOk(x) && Balanced(x);
    assert HeightsOk(root) && Balanced(root);
  }

  /** The left-right case: a left rotation of the left child, then a right
      rotation, restores balance. */
  lemma LeftRightFix(node: Tree, newLeft: Tree, root: Tree)
    requires ReadyToBalance(node) && BalanceFactor(node) == 2
    requires node.left.Node? && node.left.right.Node?
    requires NodeHeight(node.left.left) < NodeHeight(node.left.right)
    requires newLeft.Node? && newLeft.left.Node?
    requires newLeft.right == node.left.right.right
    requires newLeft.left.right == node.left.right.left && newLeft.left.left == node.left.left
    requires newLeft.left.height == 1 + Max(NodeHeight(node.left.left), NodeHeight(node.left.right.left))
    requires newLeft.height == 1 + Max(newLeft.left.height, NodeHeight(node.left.right.right))
    requires root.Node? && root.right.Node?
    requires root.left == newLeft.left
    requires root.right.left == newLeft.right && root.right.right == node.right
    requires root.right.height == 1 + Max(NodeHeight(newLeft.right), NodeHeight(node.right))
    requires root.height == 1 + Max(NodeHeight(newLeft.left), root.right.height)
    ensures Avl(root) && NodeHeight(node) - 1 <= NodeHeight(root) <= NodeHeight(node)
  {
    var l, r, m := node.left, node.right, node.left.right;
    var y, z := root.left, root.right;
    assert HeightsOk(l) && Balanced(l);
    assert HeightsOk(m) && Balanced(m);
    assert HeightsOk(l.left) && HeightsOk(m.left) && HeightsOk(m.right) && HeightsOk(r);
    assert Balanced(l.left) && Balanced(m.left) && Balanced(m.right) && Balanced(r);
    assert HeightsOk(y) && Balanced(y);
    assert HeightsOk(z) && Balanced(z);
    assert HeightsOk(root) && Balanced(root);
  }

  /** The right-right case: one left rotation restores balance. */
  lemma RightRightFix(node: Tree, root: Tree)
    requires ReadyToBalance(node) && BalanceFactor(node) == -2
    requires node.right.Node? && NodeHeight(node.right.right) >= NodeHeight(node.right.left)
    requires root.Node? && root.left.Node?
    requires root.right == node.right.right
    requires root.left.right == node.right.left && root.left.left == node.left
    requires root.left.height == 1 + Max(NodeHeight(node.left), NodeHeight(node.right.left))
    requires root.height == 1 + Max(root.left.height, NodeHeight(node.right.right))
    ensures Avl(root) && NodeHeight(node) - 1 <= NodeHeight(root) <= NodeHeight(node)
  {
    var l, r, x := node.left, node.right, root.left;
    assert HeightsOk(r) && Balanced(r);
    assert HeightsOk(r.left) && HeightsOk(r.right) && HeightsOk(l);
    assert Balanced(r.left) && Balanced(r.right) && Balanced(l);
    assert HeightsOk(x) && Balanced(x);
    assert HeightsOk(root) && Balanced(root);
  }

  /** The right-left case: a right rotation of the right child, then a left
      rotation, restores balance. */
  lemma RightLeftFix(node: Tree, newRight: Tree, root: Tree)
    requires ReadyToBalance(node) && BalanceFactor(node) == -2
    requires node.right.Node? && node.right.left.Node?
    requires NodeHeight(node.right.right) < NodeHeight(node.right.left)
    requires newRight.Node? && newRight.right.Node?
    requires newRight.left == node.right.left.left
    requires newRight.right.left == node.right.left.right && newRight.right.right == node.right.right
    requires newRight.right.height == 1 + Max(NodeHeight(node.right.left.right), NodeHeight(node.right.right))
    requires newRight.height == 1 + Max(NodeHeight(node.right.left.left), newRight.right.height)
    requires root.Node? && root.left.Node?
    requires root.right == newRight.right
    requires root.left.right == newRight.left && root.left.left == node.left
    requires root.left.height == 1 + Max(NodeHeight(node.left), NodeHeight(newRight.left))
    requires root.height == 1 + Max(root.left.height, NodeHeight(newRight.right))
    ensures Avl(root) && NodeHeight(node) - 1 <= NodeHeight(root) <= NodeHeight(node)
  {
    var l, r, m := node.left, node.right, node.right.left;
    var y, z := root.right, root.left;
    assert HeightsOk(r) && Balanced(r);
    assert HeightsOk(m) && Balanced(m);
    assert HeightsOk(r.right) && HeightsOk(m.left) && HeightsOk(m.right) && HeightsOk(l);
    assert Balanced(r.right) && Balanced(m.left) && Balanced(m.right) && Balanced(l);
    assert HeightsOk(y) && Balanced(y);
    assert HeightsOk(z) && Balanced(z);
    assert HeightsOk(root) && Balanced(root);
  }
}
