/** The heap node of a height-balanced binary search tree: a value, two owned
    child links, a non-owning parent link and a cached subtree height that
    update_height recomputes from the children. The pure picture of the
    subtree below a node is given by AsTree, in the terms of module Trees. */
module Nodes {
  import Trees

  class AdvancedBinaryNode<T> {
    // value, left and right are the payload and child links the node inherits
    var value: T
    var left: AdvancedBinaryNode?<T>
    var right: AdvancedBinaryNode?<T>
    var parentNode: AdvancedBinaryNode?<T>
    var treeHeight: int
    /** The nodes of the subtree rooted here. */
    ghost var repr: set<object>

    /** The links below this node form a finite tree: each child subtree lies
        inside this one, does not contain this node, and the two children's
        subtrees share no node. Parent links are not constrained. */
    ghost predicate Valid()
      reads this, repr
      ensures Valid() ==> this in repr
      decreases repr
    {
      this in repr &&
      (left != null ==> left in repr && left.repr <= repr && this !in left.repr && left.Valid()) &&
      (right != null ==> right in repr && right.repr <= repr && this !in right.repr && right.Valid()) &&
      (left != null && right != null ==> left.repr !! right.repr)
    }

    /** Stores the payload and the three links; the cached height is left
        unspecified until the first UpdateHeight. The children's own parent
        links are not touched. */
    constructor (e: T, p: AdvancedBinaryNode?<T> := null,
                 l: AdvancedBinaryNode?<T> := null, r: AdvancedBinaryNode?<T> := null)
      ensures value == e && left == l && right == r
      ensures Parent() == p
      ensures IsRoot() <==> p == null
      ensures repr == {this} + Footprint(l) + Footprint(r)
      ensures ChildrenFormTree(l, r) ==>
                Valid() && AsTree(this) == Trees.Node(AsTree(l), e, AsTree(r), treeHeight)
    {
      value := e;
      parentNode := p;
      left := l;
      right := r;
      repr := {this} + Footprint(l) + Footprint(r);
    }

    function Parent(): (p: AdvancedBinaryNode?<T>)
      reads this
      ensures p == parentNode
    {
      parentNode
    }

    function IsRoot(): (b: bool)
      reads this
      ensures b <==> Parent() == null
    {
      parentNode == null
    }

    function Height(): (h: int)
      reads this
      ensures h == treeHeight
    {
      treeHeight
    }

    /** Recomputes this node's cached height from its children's reported
        heights; nothing else changes, in this node or elsewhere. */
    method UpdateHeight()
      modifies this`treeHeight
      ensures treeHeight == Trees.Max(old(HeightOf(left)), old(HeightOf(right))) + 1
      ensures value == old(value) && left == old(left) && right == old(right)
      ensures parentNode == old(parentNode) && repr == old(repr)
      ensures old(Valid()) ==> Valid() && AsTree(this) == Trees.UpdateHeight(old(AsTree(this)))
      ensures old(Valid() && Trees.HeightsCorrect(AsTree(left)) && Trees.HeightsCorrect(AsTree(right))) ==>
                Trees.HeightsCorrect(AsTree(this))
    {
      treeHeight := Trees.Max(HeightOf(left), HeightOf(right)) + 1;
      if old(Valid()) {
        // this node lies outside its children's subtrees, so their footprints,
        // and with them the children's trees, are unchanged
        assert Footprint(left) == old(Footprint(left)) && Footprint(right) == old(Footprint(right));
      }
    }
  }

  /** The height reported for a child slot: -1 when the slot is empty. */
  function HeightOf<T>(n: AdvancedBinaryNode?<T>): (h: int)
    reads n
    ensures n == null ==> h == -1
    ensures n != null ==> h == n.Height()
  {
    if n == null then -1 else n.treeHeight
  }

  ghost function Footprint<T>(n: AdvancedBinaryNode?<T>): set<object>
    reads n
  {
    if n == null then {} else n.repr
  }

  /** An empty slot, or a node heading a finite tree. */
  ghost predicate IsTree<T>(n: AdvancedBinaryNode?<T>)
    reads n, Footprint(n)
  {
    n == null || n.Valid()
  }

  /** Two slots that can become the children of one new node. */
  ghost predicate ChildrenFormTree<T>(l: AdvancedBinaryNode?<T>, r: AdvancedBinaryNode?<T>)
    reads l, r, Footprint(l), Footprint(r)
  {
    IsTree(l) && IsTree(r) && Footprint(l) !! Footprint(r)
  }

  /** The subtree below a slot as a value, with each node's cached height. */
  ghost function AsTree<T>(n: AdvancedBinaryNode?<T>): (t: Trees.Tree<T>)
    reads n, Footprint(n)
    requires IsTree(n)
    ensures t.Empty? <==> n == null
    ensures Trees.HeightOf(t) == HeightOf(n)
    decreases Footprint(n)
  {
    if n == null then Trees.Empty
    else Trees.Node(AsTree(n.left), n.value, AsTree(n.right), n.treeHeight)
  }

  /** Building a chain of three nodes bottom-up and recomputing each one after
      its child is attached gives heights 0, 1 and 2. */
  method ChainHeights() returns (hc: int, hb: int, ha: int)
    ensures hc == 0 && hb == 1 && ha == 2
  {
    var c := new AdvancedBinaryNode<int>(3);
    c.UpdateHeight();
    hc := c.Height();
    var b := new AdvancedBinaryNode<int>(2, null, c);
    b.UpdateHeight();
    hb := b.Height();
    var a := new AdvancedBinaryNode<int>(1, null, b);
    a.UpdateHeight();
    ha := a.Height();
  }

  /** A node built with a parent hands that same node back and is not a root;
      the parent, built with none, is. */
  method ParentLinks() returns (sameParent: bool, childIsRoot: bool, parentIsRoot: bool)
    ensures sameParent && !childIsRoot && parentIsRoot
  {
    var a := new AdvancedBinaryNode<int>(1);
    var child := new AdvancedBinaryNode<int>(2, a);
    sameParent := child.Parent() == a;
    childIsRoot := child.IsRoot();
    parentIsRoot := a.IsRoot();
  }
}
