/** Value-level model of a binary tree whose nodes cache their subtree height.
    A slot is either Empty (a null child pointer) or a Node carrying its two
    child slots, its payload and the cached height (the `tree_height` field).
    Heights are measured in edges; an absent slot has height -1. */
module Trees {

  /** The step from a node to one of its children. */
  datatype Direction = Left | Right

  datatype Tree<T> = Empty | Node(left: Tree<T>, value: T, right: Tree<T>, treeHeight: int)

  function Max(a: int, b: int): (m: int)
    ensures m >= a && m >= b
    ensures m == a || m == b
  {
    if a >= b then a else b
  }

  /** The height a slot reports: -1 when absent, the cached height otherwise. */
  function HeightOf<T>(t: Tree<T>): int
  {
    match t
    case Empty => -1
    case Node(_, _, _, h) => h
  }

  /** The true height of a subtree, ignoring every cached value. */
  function StructuralHeight<T>(t: Tree<T>): (h: int)
    ensures h >= -1
    ensures h == -1 <==> t.Empty?
  {
    match t
    case Empty => -1
    case Node(l, _, r, _) => Max(StructuralHeight(l), StructuralHeight(r)) + 1
  }

  /** Two trees with the same links and payloads, whatever their cached heights. */
  ghost predicate SameShape<T>(a: Tree<T>, b: Tree<T>)
  {
    match a
    case Empty => b.Empty?
    case Node(l, v, r, _) => b.Node? && b.value == v && SameShape(l, b.left) && SameShape(r, b.right)
  }

  /** Every node of `t` caches its own structural height. */
  predicate HeightsCorrect<T>(t: Tree<T>)
  {
    match t
    case Empty => true
    case Node(l, _, r, h) => h == StructuralHeight(t) && HeightsCorrect(l) && HeightsCorrect(r)
  }

  // ---------------------------------------------------------------------
  // Heights as longest downward paths (the reference definition)
  // ---------------------------------------------------------------------

  /** The slot reached from `t` by following `path`; Empty once it falls off the tree. */
  function Follow<T>(t: Tree<T>, path: seq<Direction>): Tree<T>
    decreases |path|
  {
    if path == [] || t.Empty? then t
    else Follow(if path[0] == Left then t.left else t.right, path[1..])
  }

  /** `path` leads from the root of `t` down to a node; its length is its number of edges. */
  predicate IsDownwardPath<T>(t: Tree<T>, path: seq<Direction>)
  {
    Follow(t, path).Node?
  }

  lemma {:induction false} PathNoLongerThanHeight<T>(t: Tree<T>, path: seq<Direction>)
    requires IsDownwardPath(t, path)
    ensures |path| <= StructuralHeight(t)
  {
    if path != [] {
      assert t.Node?;
      var child := if path[0] == Left then t.left else t.right;
      PathNoLongerThanHeight(child, path[1..]);
    }
  }

  lemma {:induction false} LongestPath<T>(t: Tree<T>) returns (path: seq<Direction>)
    requires t.Node?
    ensures IsDownwardPath(t, path)
    ensures |path| == StructuralHeight(t)
  {
    var hl, hr := StructuralHeight(t.left), StructuralHeight(t.right);
    if hl == -1 && hr == -1 {
      path := [];
    } else {
      var d := if hl >= hr then Left else Right;
      var child := if d == Left then t.left else t.right;
      var rest := LongestPath(child);
      path := [d] + rest;
      assert path[1..] == rest;
    }
  }

  /** In a tree whose caches are correct, the root's cached height is the length
      of its longest downward path. */
  lemma CachedHeightIsLongestPath<T>(t: Tree<T>)
    requires t.Node? && HeightsCorrect(t)
    ensures forall path :: IsDownwardPath(t, path) ==> |path| <= HeightOf(t)
    ensures exists path :: IsDownwardPath(t, path) && |path| == HeightOf(t)
  {
    forall path | IsDownwardPath(t, path) ensures |path| <= HeightOf(t) {
      PathNoLongerThanHeight(t, path);
    }
    var longest := LongestPath(t);
  }

  lemma {:induction false} SubtreesOfCorrectAreCorrect<T>(t: Tree<T>, pos: seq<Direction>)
    requires HeightsCorrect(t)
    ensures HeightsCorrect(Follow(t, pos))
    decreases |pos|
  {
    if pos != [] && t.Node? {
      SubtreesOfCorrectAreCorrect(if pos[0] == Left then t.left else t.right, pos[1..]);
    }
  }

  // ---------------------------------------------------------------------
  // Recomputing cached heights
  // ---------------------------------------------------------------------

  /** update_height applied to one node: its cached height becomes one more than
      the larger of its children's reported heights. */
  function UpdateHeight<T>(t: Tree<T>): (u: Tree<T>)
    ensures u.Empty? <==> t.Empty?
    ensures u.Node? ==> u.left == t.left && u.value == t.value && u.right == t.right
    ensures t.Node? && t.left.Empty? && t.right.Empty? ==> HeightOf(u) == 0
    ensures t.Node? && HeightOf(t.left) >= -1 && HeightOf(t.right) >= -1 ==> HeightOf(u) >= 0
    ensures t.Node? && HeightsCorrect(t.left) && HeightsCorrect(t.right) ==> HeightsCorrect(u)
  {
    match t
    case Empty => Empty
    case Node(l, v, r, _) => Node(l, v, r, Max(HeightOf(l), HeightOf(r)) + 1)
  }

  /** update_height applied to every node, children before their parent. */
  function UpdateBottomUp<T>(t: Tree<T>): (u: Tree<T>)
    ensures SameShape(u, t)
    ensures HeightsCorrect(u)
  {
    match t
    case Empty => Empty
    case Node(l, v, r, h) => UpdateHeight(Node(UpdateBottomUp(l), v, UpdateBottomUp(r), h))
  }

  /** After the bottom-up pass, every node's cached height is the length of the
      longest downward path from that node. */
  lemma BottomUpCachesLongestPaths<T>(t: Tree<T>, pos: seq<Direction>)
    requires IsDownwardPath(UpdateBottomUp(t), pos)
    ensures var n := Follow(UpdateBottomUp(t), pos);
      (forall path :: IsDownwardPath(n, path) ==> |path| <= n.treeHeight) &&
      (exists path :: IsDownwardPath(n, path) && |path| == n.treeHeight)
  {
    var n := Follow(UpdateBottomUp(t), pos);
    SubtreesOfCorrectAreCorrect(UpdateBottomUp(t), pos);
    CachedHeightIsLongestPath(n);
  }

  /** A tree whose caches are already correct is left as it is by the bottom-up pass. */
  lemma {:induction false} CorrectTreeIsFixpoint<T>(t: Tree<T>)
    requires HeightsCorrect(t)
    ensures UpdateBottomUp(t) == t
  {
    if t.Node? {
      CorrectTreeIsFixpoint(t.left);
      CorrectTreeIsFixpoint(t.right);
      assert HeightOf(t.left) == StructuralHeight(t.left);
      assert HeightOf(t.right) == StructuralHeight(t.right);
    }
  }

  /** Recomputing one node does not reach its ancestors: a leaf is attached under
      the left child of a correct two-node tree, only that child is recomputed,
      and the root's cached height is now stale until it is recomputed too. */
  lemma LocalUpdateDoesNotPropagate<T>(a: T, b: T, c: T)
    ensures var before := Node(Node(Empty, b, Empty, 0), a, Empty, 1);
      var child := UpdateHeight(Node(Node(Empty, c, Empty, 0), b, Empty, 0));
      var after := Node(child, a, Empty, 1);
      HeightsCorrect(before) && HeightsCorrect(child) &&
      !HeightsCorrect(after) && HeightsCorrect(UpdateHeight(after))
  {
  }
}
