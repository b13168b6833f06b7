/** The container `AVLTree`: it owns the root pointer, which the public
    `insert` and `remove` hand to the recursive workers, and offers the tree
    height and a copy constructor. */
module Container {
  import opened StringOrder
  import opened Entries
  import opened AvlNode
  import opened Insertion
  import opened Removal

  class AvlTree {
    var root: Tree

    /** The search-tree order, which every operation keeps. */
    ghost predicate Valid()
      reads this
    {
      Ordered(root)
    }

    /** The entries in key order. */
    ghost function Contents(): seq<Entry>
      reads this
    {
      InOrder(root)
    }

    /** The default constructor: an empty tree. */
    constructor()
      ensures root == Nil
      ensures Valid() && Avl(root) && Contents() == []
    {
      root := Nil;
    }

    /** The copy constructor: the root is a deep copy of the other tree's. */
    constructor Copy(other: AvlTree)
      ensures root == other.root
      ensures other.Valid() ==> Valid()
      ensures Contents() == other.Contents()
    {
      var copy := DeepCopy(other.root);
      root := copy;
    }

    /** `insert(key, value)`: fails, changing nothing, exactly when the key is
        present; otherwise the entry is added in key order. An AVL tree stays
        an AVL tree. */
    method Insert(key: string, value: Value) returns (success: bool)
      requires Valid()
      modifies this
      ensures Valid()
      ensures success <==> key !in old(Keys(root))
      ensures !success ==> root == old(root)
      ensures success ==> Contents() == InsertSorted(old(Contents()), Entry(key, value))
      ensures Keys(root) == old(Keys(root)) + {key}
      ensures old(Avl(root)) ==> Avl(root)
    {
      root, success := InsertNode(root, key, value);
    }

    /** `remove(key)`: fails, changing nothing, exactly when the key is absent;
        otherwise the entry with that key is removed from the contents. AVL
        shape is guaranteed only when the key's node had at most one child. */
    method Remove(key: string) returns (found: bool)
      requires Valid()
      modifies this
      ensures Valid()
      ensures found <==> key in old(Keys(root))
      ensures !found ==> root == old(root)
      ensures found ==> Contents() == DeleteKey(old(Contents()), key)
      ensures Keys(root) == old(Keys(root)) - {key}
      ensures old(Avl(root)) && !old(TwoChildrenAt(root, key)) ==> Avl(root)
    {
      root, found := RemoveAt(root, key);
    }

    /** `getTreeHeight`: the root's cached height, 0 for an empty tree. While
        the height cache is sound it is the real height, and for an AVL tree
        it is logarithmic in the number of entries. */
    function GetTreeHeight(): (h: nat)
      reads this
      ensures HeightsOk(root) ==> h == Depth(root)
      ensures Avl(root) ==> Pow2(h / 2) <= |InOrder(root)| + 1
    {
      HeightFacts(root);
      NodeHeight(root)
    }

    /** The keys `operator<<` writes for this tree, in order. */
    function Printed(): (ks: seq<string>)
      reads this
      ensures |ks| == |Contents()|
      ensures forall i :: 0 <= i < |ks| ==> ks[i] == Contents()[i].key
      ensures Valid() ==> forall i, j :: 0 <= i < j < |ks| ==> Less(ks[i], ks[j])
    {
      EmittedKeys(root)
    }
  }

  lemma HeightFacts(t: Tree)
    ensures HeightsOk(t) ==> NodeHeight(t) == Depth(t)
    ensures Avl(t) ==> Pow2(NodeHeight(t) / 2) <= |InOrder(t)| + 1
  {
    if HeightsOk(t) {
      CachedHeightIsDepth(t);
    }
    if Avl(t) {
      AvlHeightIsLogarithmic(t);
    }
  }
}
