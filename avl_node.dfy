/** The tree's node (`AVLTree::AVLNode`: key, value, cached height and two
    owned children) as a datatype, the three invariants the tree is meant to
    keep, and the node-level helpers: the cached-height accessors,
    `numChildren`, `isLeaf`, the deep copy and the in-order key output. */
module AvlNode {
  import opened StringOrder
  import opened Entries

  /** `Nil` is a null child pointer. */
  datatype Tree = Nil | Node(key: string, value: Value, height: nat, left: Tree, right: Tree)

  /** `std::max` on heights. */
  function Max(a: nat, b: nat): nat
  {
    if a >= b then a else b
  }

  /** `getNodeHeight`: the cached height of a node, 0 for an absent one. */
  function NodeHeight(t: Tree): nat
  {
    if t.Nil? then 0 else t.height
  }

  /** The balance factor `balanceNode` computes from the cached heights. */
  function BalanceFactor(t: Tree): int
  {
    if t.Nil? then 0 else NodeHeight(t.left) - NodeHeight(t.right)
  }

  /** The real height: the number of nodes on the longest downward path. */
  ghost function Depth(t: Tree): nat
  {
    if t.Nil? then 0 else 1 + Max(Depth(t.left), Depth(t.right))
  }

  /** Height cache: every node's `height` is one more than its taller child's. */
  ghost predicate HeightsOk(t: Tree)
  {
    t.Node? ==>
      t.height == 1 + Max(NodeHeight(t.left), NodeHeight(t.right))
      && HeightsOk(t.left) && HeightsOk(t.right)
  }

  /** AVL balance: at every node the children's cached heights differ by at
      most one. */
  ghost predicate Balanced(t: Tree)
  {
    t.Node? ==> -1 <= BalanceFactor(t) <= 1 && Balanced(t.left) && Balanced(t.right)
  }

  /** Both height invariants: a well-formed AVL tree as far as shape goes. */
  ghost predicate Avl(t: Tree)
  {
    HeightsOk(t) && Balanced(t)
  }

  /** The abstract contents: the entries in in-order (left, node, right). */
  ghost function InOrder(t: Tree): seq<Entry>
  {
    if t.Nil? then [] else InOrder(t.left) + [Entry(t.key, t.value)] + InOrder(t.right)
  }

  ghost function Keys(t: Tree): set<string>
  {
    if t.Nil? then {} else Keys(t.left) + {t.key} + Keys(t.right)
  }

  /** Search-tree order: at every node the left subtree's keys are below the
      node's key and the right subtree's keys above it. */
  ghost predicate Ordered(t: Tree)
  {
    t.Node? ==>
      (forall x :: x in Keys(t.left) ==> Less(x, t.key))
      && (forall x :: x in Keys(t.right) ==> Less(t.key, x))
      && Ordered(t.left) && Ordered(t.right)
  }

  /** The cached height plays no part in the contents or the order. */
  lemma HeightIgnored(t: Tree, n: Tree)
    requires t.Node? && n.Node? && n == t.(height := n.height)
    ensures InOrder(n) == InOrder(t) && Keys(n) == Keys(t) && (Ordered(n) <==> Ordered(t))
  {
  }

  /** The in-order sequence of a node, grouped as left subtree, then the
      node's entry followed by the right subtree. */
  lemma InOrderSplit(t: Tree)
    requires t.Node?
    ensures InOrder(t) == InOrder(t.left) + ([Entry(t.key, t.value)] + InOrder(t.right))
  {
    ConcatAssoc(InOrder(t.left), [Entry(t.key, t.value)], InOrder(t.right));
  }

  /** When the cache invariant holds, `getNodeHeight` returns the real height. */
  lemma {:induction false} CachedHeightIsDepth(t: Tree)
    requires HeightsOk(t)
    ensures NodeHeight(t) == Depth(t)
  {
    if t.Node? {
      CachedHeightIsDepth(t.left);
      CachedHeightIsDepth(t.right);
    }
  }

  /** The keys of the in-order sequence are exactly the tree's keys. */
  lemma {:induction false} InOrderKeys(t: Tree)
    ensures forall i :: 0 <= i < |InOrder(t)| ==> InOrder(t)[i].key in Keys(t)
    ensures forall x :: x in Keys(t) ==> exists i :: 0 <= i < |InOrder(t)| && InOrder(t)[i].key == x
  {
    if t.Node? {
      InOrderKeys(t.left);
      InOrderKeys(t.right);
      var l, r := InOrder(t.left), InOrder(t.right);
      var s := InOrder(t);
      assert s == l + [Entry(t.key, t.value)] + r;
      forall i | 0 <= i < |s| ensures s[i].key in Keys(t) {
        if i < |l| {
          assert s[i] == l[i];
        } else if i > |l| {
          assert s[i] == r[i - |l| - 1];
        }
      }
      forall x | x in Keys(t) ensures exists i :: 0 <= i < |s| && s[i].key == x {
        if x in Keys(t.left) {
          var i :| 0 <= i < |l| && l[i].key == x;
          assert s[i] == l[i];
        } else if x == t.key {
          assert s[|l|].key == x;
        } else {
          var i :| 0 <= i < |r| && r[i].key == x;
          assert s[|l| + 1 + i] == r[i];
        }
      }
    }
  }

  /** In a search tree the in-order entries left of a node are below its key
      and those right of it above. */
  lemma InOrderBounds(t: Tree)
    requires t.Node? && Ordered(t)
    ensures AllBelow(InOrder(t.left), t.key) && AllAbove(InOrder(t.right), t.key)
  {
    InOrderKeys(t.left);
    InOrderKeys(t.right);
  }

  /** Search-tree order holds exactly when the in-order keys ascend strictly. */
  lemma OrderedIffSorted(t: Tree)
    ensures Ordered(t) <==> Sorted(InOrder(t))
  {
    if Ordered(t) {
      OrderedIsSorted(t);
    }
    if Sorted(InOrder(t)) {
      SortedIsOrdered(t);
    }
  }

  lemma {:induction false} OrderedIsSorted(t: Tree)
    requires Ordered(t)
    ensures Sorted(InOrder(t))
  {
    if t.Node? {
      OrderedIsSorted(t.left);
      OrderedIsSorted(t.right);
      InOrderKeys(t.left);
      InOrderKeys(t.right);
      var l, r := InOrder(t.left), InOrder(t.right);
      var s := InOrder(t);
      assert s == l + [Entry(t.key, t.value)] + r;
      forall i, j | 0 <= i < j < |s| ensures Less(s[i].key, s[j].key) {
        if j < |l| {
          assert s[i] == l[i] && s[j] == l[j];
        } else if i > |l| {
          assert s[i] == r[i - |l| - 1] && s[j] == r[j - |l| - 1];
        } else if i == |l| {
          assert s[j] == r[j - |l| - 1];
        } else if j == |l| {
          assert s[i] == l[i];
        } else {
          assert s[i] == l[i] && s[j] == r[j - |l| - 1];
          LessTransitive(s[i].key, t.key, s[j].key);
        }
      }
    }
  }

  lemma {:induction false} SortedIsOrdered(t: Tree)
    requires Sorted(InOrder(t))
    ensures Ordered(t)
  {
    if t.Node? {
      InOrderKeys(t.left);
      InOrderKeys(t.right);
      var l, r := InOrder(t.left), InOrder(t.right);
      var s := InOrder(t);
      assert s == l + [Entry(t.key, t.value)] + r;
      forall i, j | 0 <= i < j < |l| ensures Less(l[i].key, l[j].key) {
        assert s[i] == l[i] && s[j] == l[j];
      }
      forall i, j | 0 <= i < j < |r| ensures Less(r[i].key, r[j].key) {
        assert s[|l| + 1 + i] == r[i] && s[|l| + 1 + j] == r[j];
      }
      SortedIsOrdered(t.left);
      SortedIsOrdered(t.right);
      forall x | x in Keys(t.left) ensures Less(x, t.key) {
        var i :| 0 <= i < |l| && l[i].key == x;
        assert s[i] == l[i] && s[|l|].key == t.key;
      }
      forall x | x in Keys(t.right) ensures Less(t.key, x) {
        var i :| 0 <= i < |r| && r[i].key == x;
        assert s[|l| + 1 + i] == r[i] && s[|l|].key == t.key;
      }
    }
  }

  /** `AVLNode::isLeaf`: no children. A node is a leaf exactly when its
      subtree holds a single entry. */
  predicate IsLeaf(n: Tree)
    requires n.Node?
    ensures IsLeaf(n) <==> |InOrder(n)| == 1
  {
    InOrderNonEmpty(n.left);
    InOrderNonEmpty(n.right);
    n.left.Nil? && n.right.Nil?
  }

  lemma InOrderNonEmpty(t: Tree)
    ensures t.Node? <==> |InOrder(t)| > 0
  {
  }

  /** `AVLNode::numChildren`: counts the present children one by one. */
  method NumChildren(n: Tree) returns (count: nat)
    requires n.Node?
    ensures count <= 2
    ensures count == 0 <==> IsLeaf(n)
    ensures count == 2 <==> n.left.Node? && n.right.Node?
  {
    count := 0;
    if n.left.Node? {
      count := count + 1;
    }
    if n.right.Node? {
      count := count + 1;
    }
  }

  /** `deepCopy`: rebuilds the node, then its left and right subtrees. The
      copy has the same shape, keys, values and cached heights. */
  method DeepCopy(node: Tree) returns (copy: Tree)
    ensures copy == node
  {
    if node.Nil? {
      return Nil;
    }
    copy := Node(node.key, node.value, node.height, Nil, Nil);
    var left := DeepCopy(node.left);
    copy := copy.(left := left);
    var right := DeepCopy(node.right);
    copy := copy.(right := right);
  }

  /** The keys `operator<<` writes, in the order it writes them: exactly the
      in-order key sequence, strictly ascending when the tree is ordered. */
  function EmittedKeys(t: Tree): (ks: seq<string>)
    ensures ks == KeysOf(InOrder(t))
    ensures Ordered(t) ==> forall i, j :: 0 <= i < j < |ks| ==> Less(ks[i], ks[j])
  {
    if t.Nil? then []
    else
      var ks := EmittedKeys(t.left) + [t.key] + EmittedKeys(t.right);
      OrderedIffSorted(t);
      assert KeysOf(InOrder(t)) == ks by {
        var l, r := InOrder(t.left), InOrder(t.right);
        assert InOrder(t) == l + [Entry(t.key, t.value)] + r;
        assert KeysOf(l + [Entry(t.key, t.value)] + r) == KeysOf(l) + [t.key] + KeysOf(r);
      }
      ks
  }

  /** The smallest number of nodes an AVL tree of height `h` can have. */
  ghost function MinNodes(h: nat): nat
  {
    if h == 0 then 0 else if h == 1 then 1 else 1 + MinNodes(h - 1) + MinNodes(h - 2)
  }

  ghost function Pow2(n: nat): nat
  {
    if n == 0 then 1 else 2 * Pow2(n - 1)
  }

  lemma {:induction false} MinNodesMonotone(h: nat)
    ensures MinNodes(h) <= MinNodes(h + 1)
  {
    if h >= 1 {
      MinNodesMonotone(h - 1);
    }
  }

  lemma {:induction false} MinNodesGrowth(h: nat)
    ensures Pow2(h / 2) <= MinNodes(h) + 1
  {
    if h >= 2 {
      MinNodesGrowth(h - 2);
      MinNodesMonotone(h - 2);
      assert (h - 2) / 2 == h / 2 - 1;
    }
  }

  /** An AVL tree of height `h` holds at least `MinNodes(h)` entries. */
  lemma {:induction false} AvlHasMinNodes(t: Tree, h: nat)
    requires Avl(t) && NodeHeight(t) == h
    ensures MinNodes(h) <= |InOrder(t)|
    decreases t
  {
    if t.Node? {
      AvlChildren(t);
      var hl, hr := NodeHeight(t.left), NodeHeight(t.right);
      if h >= 2 {
        if hl == h - 1 && hr == h - 1 {
          AvlHasMinNodes(t.left, h - 1);
          AvlHasMinNodes(t.right, h - 1);
          MinNodesMonotone(h - 2);
        } else if hl == h - 1 {
          AvlHasMinNodes(t.left, h - 1);
          AvlHasMinNodes(t.right, h - 2);
        } else {
          AvlHasMinNodes(t.left, h - 2);
          AvlHasMinNodes(t.right, h - 1);
        }
      }
    }
  }

  /** The children of an AVL node are AVL trees, one level lower or two, and
      together they hold all entries but the node's. */
  lemma AvlChildren(t: Tree)
    requires Avl(t) && t.Node?
    ensures Avl(t.left) && Avl(t.right)
    ensures NodeHeight(t) == 1 + Max(NodeHeight(t.left), NodeHeight(t.right))
    ensures -1 <= NodeHeight(t.left) - NodeHeight(t.right) <= 1
    ensures |InOrder(t)| == |InOrder(t.left)| + 1 + |InOrder(t.right)|
  {
  }

  /** The height of an AVL tree is logarithmic in its size:
      2^(height / 2) <= size + 1. */
  lemma AvlHeightIsLogarithmic(t: Tree)
    requires Avl(t)
    ensures Pow2(NodeHeight(t) / 2) <= |InOrder(t)| + 1
  {
    AvlHasMinNodes(t, NodeHeight(t));
    MinNodesGrowth(NodeHeight(t));
  }
}
