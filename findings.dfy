/** Two defects of `removeNode` on a node with two children, each shown on
    the code as written, with the intended behaviour beside it.

    1. The successor's value is copied through an `int` local. On a target
       with a 32-bit `int` and a 64-bit `size_t` this keeps only the low 32
       bits, sign-extended. The main model (`Removal.RemoveNode`) copies the
       value unchanged, as intended.

    2. The overwritten node's height and balance are never fixed: neither
       `removeNode` nor its caller recomputes them, since the caller's
       recomputation happens only on the paths that recurse into a child.
       The main model keeps that behaviour; `RemoveAtFixed` and
       `RemoveNodeFixed` below add the missing recomputation and rebalancing
       and are proved to keep every AVL tree an AVL tree. */
module Findings {
  import opened StringOrder
  import opened Entries
  import opened AvlNode
  import opened Rebalance
  import opened Removal

  const IntLimit: int := 0x1_0000_0000
  const IntMax: int := 0x7FFF_FFFF

  /** `int newValue = v; current->value = newValue;` with a 32-bit `int`:
      the conversion to `int` keeps the value modulo 2^32 read as a signed
      number, and the conversion back to `size_t` adds 2^64 to a negative
      one. The value survives exactly when it fits in an `int` or is the
      `size_t` image of a negative `int`. */
  function ThroughInt(v: Value): (w: Value)
    ensures w == v <==> v <= IntMax || v >= SizeTLimit - IntMax - 1
    ensures w % IntLimit == v % IntLimit
  {
    var low := v % IntLimit;
    if low <= IntMax then low else low + SizeTLimit - IntLimit
  }

  /** A value of 2^32 comes back as 0, and 2^31 as 2^64 - 2^31. */
  lemma ThroughIntLosesValues()
    ensures ThroughInt(0x1_0000_0000) == 0
    ensures ThroughInt(0x8000_0000) == 0xFFFF_FFFF_8000_0000
  {
  }

  function Leaf(k: string): Tree
  {
    Node(k, 0, 1, Nil, Nil)
  }

  lemma LeafContents(k: string)
    ensures Keys(Leaf(k)) == {k}
    ensures InOrder(Leaf(k)) == [Entry(k, 0)]
  {
  }

  /** A node over two AVL subtrees, with its height right and its balance
      factor within one, is an AVL tree. */
  lemma AvlStep(t: Tree)
    requires t.Node? && Avl(t.left) && Avl(t.right)
    requires t.height == 1 + Max(NodeHeight(t.left), NodeHeight(t.right)) && -1 <= BalanceFactor(t) <= 1
    ensures Avl(t)
  {
  }

  /** A node whose subtrees are ordered and lie on the correct sides of its
      key is ordered. */
  lemma OrderedStep(t: Tree)
    requires t.Node? && Ordered(t.left) && Ordered(t.right)
    requires forall x :: x in Keys(t.left) ==> Less(x, t.key)
    requires forall x :: x in Keys(t.right) ==> Less(t.key, x)
    ensures Ordered(t)
  {
  }

  /** For keys a < b < c < d < e, `remove` of the root d of the AVL tree
      d(b(a, c), e) leaves the root e(b(a, c), -), whose balance factor is 2. */
  method UnbalancedAfterRemove(a: string, b: string, c: string, d: string, e: string)
      returns (before: Tree, after: Tree)
    requires Less(a, b) && Less(b, c) && Less(c, d) && Less(d, e)
    ensures before == Node(d, 0, 3, Node(b, 0, 2, Leaf(a), Leaf(c)), Leaf(e))
    ensures Avl(before) && Ordered(before)
    ensures InOrder(after) == DeleteKey(InOrder(before), d)
    ensures after.Node? && after.key == e && BalanceFactor(after) == 2 && !Balanced(after)
  {
    var left := Node(b, 0, 2, Leaf(a), Leaf(c));
    AvlStep(Leaf(a));
    AvlStep(Leaf(c));
    AvlStep(Leaf(e));
    AvlStep(left);
    before := Node(d, 0, 3, left, Leaf(e));
    AvlStep(before);
    LessTransitive(a, b, c);
    LessTransitive(a, c, d);
    LessTransitive(b, c, d);
    OrderedStep(Leaf(a));
    OrderedStep(Leaf(c));
    OrderedStep(Leaf(e));
    LeafContents(a);
    LeafContents(c);
    LeafContents(e);
    OrderedStep(left);
    assert Keys(left) == {a, b, c};
    OrderedStep(before);
    var found;
    after, found := RemoveAt(before, d);
    assert d in Keys(before) && found;
    assert SuccessorOverwrite(before, after);
    assert InOrder(Leaf(e)) == [Entry(e, 0)];
    assert after.key == e;
    LessIrreflexive(d);
    assert Keys(before) == {a, b, c, d, e};
    assert Keys(after) == {a, b, c, e};
    LessTransitive(c, d, e);
    LessTransitive(b, c, e);
    LessTransitive(a, b, e);
    LessAsymmetric(a, e);
    LessAsymmetric(b, e);
    LessAsymmetric(c, e);
    LessIrreflexive(e);
    assert forall x :: x in Keys(after.right) ==> x in {a, b, c, e} && Less(e, x);
    assert Keys(after.right) == {};
  }

  /** For keys a < d < e < f, `remove` of the root d of the AVL tree
      d(a, e(-, f)) leaves the root e(a, f), whose cached height is 3
      although its real height is 2. */
  method StaleHeightAfterRemove(a: string, d: string, e: string, f: string)
      returns (before: Tree, after: Tree)
    requires Less(a, d) && Less(d, e) && Less(e, f)
    ensures before == Node(d, 0, 3, Leaf(a), Node(e, 0, 2, Nil, Leaf(f)))
    ensures Avl(before) && Ordered(before)
    ensures InOrder(after) == DeleteKey(InOrder(before), d)
    ensures after.Node? && after.key == e && NodeHeight(after) == 3 && Depth(after) == 2
    ensures !HeightsOk(after)
  {
    var right := Node(e, 0, 2, Nil, Leaf(f));
    AvlStep(Leaf(a));
    AvlStep(Leaf(f));
    AvlStep(right);
    before := Node(d, 0, 3, Leaf(a), right);
    AvlStep(before);
    LessTransitive(d, e, f);
    OrderedStep(Leaf(a));
    OrderedStep(Leaf(f));
    LeafContents(a);
    LeafContents(f);
    OrderedStep(right);
    assert Keys(right) == {e, f};
    OrderedStep(before);
    assert InOrder(right)[0] == Entry(e, 0) && |InOrder(right)| == 2;
    assert |InOrder(before)| == 4;
    var found;
    after, found := RemoveAt(before, d);
    assert d in Keys(before) && found;
    assert SuccessorOverwrite(before, after);
    var r := after.right;
    assert |InOrder(after.left)| == 1;
    assert |InOrder(r)| == 1;
    AvlHasMinNodes(r, NodeHeight(r));
    CachedHeightIsDepth(r);
  }

  /** The keys of both examples exist: "a" < "b" < "c" < "d" < "e" < "f". */
  lemma ExampleKeysAscend()
    ensures Less("a", "b") && Less("b", "c") && Less("c", "d") && Less("d", "e") && Less("e", "f")
    ensures Less("a", "d")
  {
  }

  /** `remove` as intended: as `Removal.RemoveAt`, and an AVL tree stays an
      AVL tree whose height shrank by at most one, whatever node held the
      key. */
  method RemoveAtFixed(current: Tree, key: string) returns (current': Tree, found: bool)
    requires Ordered(current)
    ensures found <==> key in Keys(current)
    ensures !found ==> current' == current
    ensures found ==> InOrder(current') == DeleteKey(InOrder(current), key)
    ensures Keys(current') == Keys(current) - {key}
    ensures Ordered(current')
    ensures Avl(current) ==>
              Avl(current') && NodeHeight(current) - 1 <= NodeHeight(current') <= NodeHeight(current)
    decreases current, 1
  {
    if current.Nil? {
      return current, false;
    }
    KeyOnSide(current, key);
    if Less(key, current.key) {
      var child;
      child, found := RemoveAtFixed(current.left, key);
      if !found {
        return current, false;
      }
      current' := current.(left := child);
      DeletedLeft(current, child, key);
      RemovedLeftOrdered(current, child, key);
    } else if Less(current.key, key) {
      var child;
      child, found := RemoveAtFixed(current.right, key);
      if !found {
        return current, false;
      }
      current' := current.(right := child);
      DeletedRight(current, child, key);
      RemovedRightOrdered(current, child, key);
    } else {
      current', found := RemoveNodeFixed(current);
      return;
    }
    current' := Refresh(current, current');
  }

  /** `removeNode` as intended: the two-child case also recomputes the
      overwritten node's height and rebalances it. */
  method RemoveNodeFixed(current: Tree) returns (current': Tree, removed: bool)
    requires Ordered(current)
    ensures removed <==> current.Node?
    ensures current.Nil? ==> current' == Nil
    ensures current.Node? ==> InOrder(current') == DeleteKey(InOrder(current), current.key)
    ensures current.Node? ==> Keys(current') == Keys(current) - {current.key}
    ensures Ordered(current')
    ensures Avl(current) && current.Node? ==>
              Avl(current') && NodeHeight(current) - 1 <= NodeHeight(current') <= NodeHeight(current)
    decreases current, 0
  {
    if current.Nil? {
      return current, false;
    }
    var nChildren := NumChildren(current);
    if IsLeaf(current) {
      DeletedRoot(current);
      return Nil, true;
    }
    if nChildren == 1 {
      var child := Nil;
      if current.left.Node? {
        child := current.left;
      } else {
        child := current.right;
      }
      DeletedRoot(current);
      if Avl(current) {
        OnlyChildHeight(current);
      }
      return child, true;
    }
    var smallestInRight := FindSuccessor(current.right);
    var newKey := smallestInRight.key;
    var newValue := smallestInRight.value;
    current' := current.(key := newKey, value := newValue);
    LeftmostKey(current.right);
    var right;
    right, removed := RemoveAtFixed(current.right, smallestInRight.key);
    current' := current'.(right := right);
    DeletedSuccessor(current, Entry(newKey, newValue), right);
    DeletedSuccessorOrdered(current, Entry(newKey, newValue), right);
    current' := Refresh(current, current');
  }

  /** The height recomputation and `balanceNode` that `remove` runs after a
      recursive call, applied to a node whose subtree shrank on one side. */
  method Refresh(original: Tree, node: Tree) returns (balanced: Tree)
    requires node.Node? && Ordered(node)
    requires Avl(original) ==>
               original.Node?
               && ((node.right == original.right && Avl(node.left)
                    && NodeHeight(original.left) - 1 <= NodeHeight(node.left) <= NodeHeight(original.left))
                   || (node.left == original.left && Avl(node.right)
                       && NodeHeight(original.right) - 1 <= NodeHeight(node.right) <= NodeHeight(original.right)))
    ensures InOrder(balanced) == InOrder(node) && Keys(balanced) == Keys(node)
    ensures Ordered(balanced)
    ensures Avl(original) ==>
              Avl(balanced) && NodeHeight(original) - 1 <= NodeHeight(balanced) <= NodeHeight(original)
  {
    var leftHeight, rightHeight := 0, 0;
    if node.left.Node? {
      leftHeight := node.left.height;
    }
    if node.right.Node? {
      rightHeight := node.right.height;
    }
    var updated := node.(height := 1 + Max(leftHeight, rightHeight));
    HeightIgnored(node, updated);
    balanced := BalanceNode(updated);
    if Avl(original) {
      ShrunkChild(original, updated);
    }
  }
}
