/** `kernel/rbtree.c` on the heap: nodes with parent, left and right pointers and a
    colour, rewritten in place.

    Ghost parameters carry the tree value (`t`) and the path (`z`) that the pointers
    represent at the current node; the methods are proved to compute the functions of
    RbTree on them. */
module RbHeap {
  import opened RbTree

  class RbNode {
    var parent: RbNode?
    var left: RbNode?
    var right: RbNode?
    var color: Color

    constructor () {
      parent, left, right, color := null, null, null, Red;
    }
  }

  class RbRoot {
    var node: RbNode?

    constructor ()
      ensures IsTree(Leaf, this)
    {
      node := null;
    }
  }

  // ---------- What the pointers represent ----------

  ghost function Nodes(t: Tree<RbNode>): set<RbNode>
  {
    match t
    case Leaf => {}
    case Node(_, l, v, r) => Nodes(l) + {v} + Nodes(r)
  }

  ghost function PathNodes(z: Path<RbNode>): set<RbNode>
  {
    if z.Top? then {} else PathNodes(z.up) + {z.val} + Nodes(z.sib)
  }

  ghost predicate Distinct(t: Tree<RbNode>)
  {
    match t
    case Leaf => true
    case Node(_, l, v, r) =>
      Distinct(l) && Distinct(r) && v !in Nodes(l) && v !in Nodes(r) && Nodes(l) !! Nodes(r)
  }

  ghost predicate PathDistinct(z: Path<RbNode>)
  {
    z.Top? ||
    (&& PathDistinct(z.up) && Distinct(z.sib)
     && z.val !in Nodes(z.sib) && z.val !in PathNodes(z.up) && Nodes(z.sib) !! PathNodes(z.up))
  }

  ghost function PathTop(z: Path<RbNode>): RbNode?
  {
    if z.Top? then null else z.val
  }

  /** The pointers below `p` are those of `t`, whose root hangs under `parent`. */
  ghost predicate Below(t: Tree<RbNode>, p: RbNode?, parent: RbNode?)
    reads Nodes(t)
  {
    match t
    case Leaf => p == null
    case Node(c, l, v, r) =>
      && p == v && v.parent == parent && v.color == c
      && Below(l, v.left, v) && Below(r, v.right, v)
  }

  /** The pointers around a hole that holds `p` are those of `z`. */
  ghost predicate Above(z: Path<RbNode>, p: RbNode?, root: RbRoot)
    reads PathNodes(z), root
  {
    match z
    case Top => root.node == p
    case LeftOf(up, c, v, s) =>
      v.left == p && v.parent == PathTop(up) && v.color == c && Below(s, v.right, v) && Above(up, v, root)
    case RightOf(up, c, v, s) =>
      v.right == p && v.parent == PathTop(up) && v.color == c && Below(s, v.left, v) && Above(up, v, root)
  }

  /** The heap holds the tree `Plug(z, t)`, and `p` points to its subtree `t`. */
  ghost predicate At(z: Path<RbNode>, t: Tree<RbNode>, p: RbNode?, root: RbRoot)
    reads Nodes(t), PathNodes(z), root
  {
    && Below(t, p, PathTop(z)) && Above(z, p, root)
    && Distinct(t) && PathDistinct(z) && Nodes(t) !! PathNodes(z)
  }

  ghost predicate IsTree(t: Tree<RbNode>, root: RbRoot)
    reads Nodes(t), root
  {
    Below(t, root.node, null) && Distinct(t)
  }

  lemma NodesAllocated(t: Tree<RbNode>)
    ensures forall n <- Nodes(t) :: allocated(n)
  {
  }

  lemma PathNodesAllocated(z: Path<RbNode>)
    ensures forall n <- PathNodes(z) :: allocated(n)
  {
    if !z.Top? {
      NodesAllocated(z.sib);
    }
  }

  // ---------- Moving the focus ----------

  lemma FocusUp(z: Path<RbNode>, t: Tree<RbNode>, p: RbNode?, root: RbRoot)
    requires At(z, t, p, root) && !z.Top?
    ensures At(z.up, Parent(z, z.color, t), z.val, root)
    ensures Nodes(Parent(z, z.color, t)) + PathNodes(z.up) == Nodes(t) + PathNodes(z)
  {
  }

  lemma FocusLeft(z: Path<RbNode>, t: Tree<RbNode>, p: RbNode, root: RbRoot)
    requires At(z, t, p, root)
    ensures p == t.val && At(LeftOf(z, t.color, t.val, t.right), t.left, p.left, root)
    ensures Nodes(t.left) + PathNodes(LeftOf(z, t.color, t.val, t.right)) == Nodes(t) + PathNodes(z)
  {
  }

  lemma FocusRight(z: Path<RbNode>, t: Tree<RbNode>, p: RbNode, root: RbRoot)
    requires At(z, t, p, root)
    ensures p == t.val && At(RightOf(z, t.color, t.val, t.left), t.right, p.right, root)
  {
  }

  /** The other child of the parent. */
  ghost function Sibling(z: Path<RbNode>): RbNode?
    requires !z.Top?
    reads z.val
  {
    if z.LeftOf? then z.val.right else z.val.left
  }

  ghost function SiblingPath(z: Path<RbNode>, t: Tree<RbNode>): Path<RbNode>
    requires !z.Top?
  {
    if z.LeftOf? then RightOf(z.up, z.color, z.val, t) else LeftOf(z.up, z.color, z.val, t)
  }

  lemma FocusSibling(z: Path<RbNode>, t: Tree<RbNode>, p: RbNode?, root: RbRoot)
    requires At(z, t, p, root) && !z.Top?
    ensures At(SiblingPath(z, t), z.sib, Sibling(z), root) && Sibling(SiblingPath(z, t)) == p
    ensures Sibling(z) != null <==> z.sib.Node?
    ensures z.sib.Node? ==> Sibling(z) == z.sib.val && Sibling(z).color == z.sib.color
    ensures Nodes(z.sib) + PathNodes(SiblingPath(z, t)) == Nodes(t) + PathNodes(z)
  {
  }

  // ---------- Single updates ----------

  method Recolor(p: RbNode, c: Color, root: RbRoot, ghost z: Path<RbNode>, ghost t: Tree<RbNode>)
    requires At(z, t, p, root)
    modifies p`color
    ensures t.Node? && At(z, t.(color := c), p, root)
  {
    p.color := c;
  }

  /** Redirect the pointer that holds `p` to `q`. */
  method Redirect(p: RbNode?, q: RbNode?, parent: RbNode?, root: RbRoot, ghost z: Path<RbNode>)
    requires Above(z, p, root) && PathDistinct(z) && parent == PathTop(z)
    requires z.RightOf? ==> p == null || p !in Nodes(z.sib)
    requires p == null ==> !z.RightOf?
    modifies root`node, if parent == null then {} else {parent}
    ensures Above(z, q, root)
    ensures parent != null ==> parent.parent == old(parent.parent) && parent.color == old(parent.color)
  {
    if parent != null {
      if p == parent.left {
        parent.left := q;
      } else {
        parent.right := q;
      }
    } else {
      root.node := q;
    }
  }

  function RotatedLeft<V>(t: Tree<V>): Tree<V>
    requires t.Node? && t.right.Node?
  {
    var y := t.right;
    Node(y.color, Node(t.color, t.left, t.val, y.left), y.val, y.right)
  }

  function RotatedRight<V>(t: Tree<V>): Tree<V>
    requires t.Node? && t.left.Node?
  {
    var x := t.left;
    Node(x.color, x.left, x.val, Node(t.color, x.right, t.val, t.right))
  }

  lemma RotatedLeftNodes(t: Tree<RbNode>)
    requires t.Node? && t.right.Node? && Distinct(t)
    ensures Distinct(RotatedLeft(t)) && Nodes(RotatedLeft(t)) == Nodes(t)
  {
    var y := t.right;
    assert Distinct(y) && Nodes(y) == Nodes(y.left) + {y.val} + Nodes(y.right);
    assert Distinct(Node(t.color, t.left, t.val, y.left));
  }

  /** What `Below` says about the pointers that a left rotation touches. */
  lemma RightLinks(t: Tree<RbNode>, p: RbNode, parent: RbNode?)
    requires Below(t, p, parent) && Distinct(t) && t.right.Node?
    ensures p == t.val && p.right == t.right.val && p.parent == parent
    ensures Below(t.left, p.left, p) && Below(t.right.left, p.right.left, p.right)
            && Below(t.right.right, p.right.right, p.right)
    ensures p.right.left != null <==> t.right.left.Node?
    ensures {p} !! {p.right} !! Nodes(t.left) !! Nodes(t.right.left) !! Nodes(t.right.right)
    ensures Nodes(t) == {p} + {p.right} + Nodes(t.left) + Nodes(t.right.left) + Nodes(t.right.right)
  {
    assert Below(t.right, p.right, p) && Distinct(t.right);
  }

  method Reparent(p: RbNode?, parent: RbNode?, ghost t: Tree<RbNode>, ghost was: RbNode?)
    requires Below(t, p, was) && Distinct(t)
    modifies if p == null then {} else {p}
    ensures Below(t, p, parent)
  {
    if p != null {
      p.parent := parent;
    }
  }

  /** The pointers below the upper end of a left rotation. */
  method TurnLeft(node: RbNode, ghost t: Tree<RbNode>, ghost parent: RbNode?) returns (right: RbNode)
    requires Below(t, node, parent) && Distinct(t) && t.right.Node?
    modifies Nodes(t)
    ensures right == t.right.val && Below(RotatedLeft(t), right, parent)
  {
    RightLinks(t, node, parent);
    NodesAllocated(t);
    right := node.right;
    node.right := right.left;
    Reparent(right.left, node, t.right.left, right);
    right.left := node;
    right.parent := node.parent;
    node.parent := right;
    assert Below(t.left, node.left, node);
    assert Below(t.right.left, node.right, node);
    assert Below(t.right.right, right.right, right);
  }

  method RotateLeft(node: RbNode, root: RbRoot, ghost z: Path<RbNode>, ghost t: Tree<RbNode>)
    requires At(z, t, node, root) && t.right.Node?
    modifies root, Nodes(t) + PathNodes(z)
    ensures At(z, RotatedLeft(t), t.right.val, root)
    ensures Nodes(RotatedLeft(t)) == Nodes(t)
  {
    RotatedLeftNodes(t);
    NodesAllocated(t);
    PathNodesAllocated(z);
    var right := TurnLeft(node, t, PathTop(z));
    assert Above(z, node, root);
    Redirect(node, right, right.parent, root, z);
  }

  lemma RotatedRightNodes(t: Tree<RbNode>)
    requires t.Node? && t.left.Node? && Distinct(t)
    ensures Distinct(RotatedRight(t)) && Nodes(RotatedRight(t)) == Nodes(t)
  {
    var x := t.left;
    assert Distinct(x) && Nodes(x) == Nodes(x.left) + {x.val} + Nodes(x.right);
    assert Distinct(Node(t.color, x.right, t.val, t.right));
  }

  lemma LeftLinks(t: Tree<RbNode>, p: RbNode, parent: RbNode?)
    requires Below(t, p, parent) && Distinct(t) && t.left.Node?
    ensures p == t.val && p.left == t.left.val && p.parent == parent
    ensures Below(t.right, p.right, p) && Below(t.left.right, p.left.right, p.left)
            && Below(t.left.left, p.left.left, p.left)
    ensures p.left.right != null <==> t.left.right.Node?
    ensures {p} !! {p.left} !! Nodes(t.right) !! Nodes(t.left.right) !! Nodes(t.left.left)
    ensures Nodes(t) == {p} + {p.left} + Nodes(t.right) + Nodes(t.left.right) + Nodes(t.left.left)
  {
    assert Below(t.left, p.left, p) && Distinct(t.left);
  }

  method TurnRight(node: RbNode, ghost t: Tree<RbNode>, ghost parent: RbNode?) returns (left: RbNode)
    requires Below(t, node, parent) && Distinct(t) && t.left.Node?
    modifies Nodes(t)
    ensures left == t.left.val && Below(RotatedRight(t), left, parent)
  {
    LeftLinks(t, node, parent);
    NodesAllocated(t);
    left := node.left;
    node.left := left.right;
    Reparent(left.right, node, t.left.right, left);
    left.right := node;
    left.parent := node.parent;
    node.parent := left;
    assert Below(t.right, node.right, node);
    assert Below(t.left.right, node.left, node);
    assert Below(t.left.left, left.left, left);
  }

  method RotateRight(node: RbNode, root: RbRoot, ghost z: Path<RbNode>, ghost t: Tree<RbNode>)
    requires At(z, t, node, root) && t.left.Node?
    modifies root, Nodes(t) + PathNodes(z)
    ensures At(z, RotatedRight(t), t.left.val, root)
    ensures Nodes(RotatedRight(t)) == Nodes(t)
  {
    RotatedRightNodes(t);
    NodesAllocated(t);
    PathNodesAllocated(z);
    var left := TurnRight(node, t, PathTop(z));
    assert Above(z, node, root);
    Redirect(node, left, left.parent, root, z);
  }

  // ---------- rb_insert_color ----------

  /** The red-uncle case: recolour uncle, parent and grandparent. */
  method InsertRecolorStep(node: RbNode, parent: RbNode, gparent: RbNode, uncle: RbNode, root: RbRoot,
                           ghost z: Path<RbNode>, ghost t: Tree<RbNode>)
    requires At(z, t, node, root) && !z.Top? && !z.up.Top?
    requires parent == z.val && gparent == z.up.val && uncle == Sibling(z.up)
    modifies Nodes(t) + PathNodes(z)
    ensures At(z.up.up, InsertRecolor(z, t), gparent, root)
    ensures Nodes(InsertRecolor(z, t)) + PathNodes(z.up.up) == Nodes(t) + PathNodes(z)
  {
    ghost var p, u := Parent(z, z.color, t), Blacken(z.up.sib);
    FocusUp(z, t, node, root);
    FocusSibling(z.up, p, parent, root);
    Recolor(uncle, Black, root, SiblingPath(z.up, p), z.up.sib);
    FocusSibling(SiblingPath(z.up, p), u, uncle, root);
    Recolor(parent, Black, root, WithSibling(z.up, u), p);
    FocusUp(WithSibling(z.up, u), Blacken(p), parent, root);
    Recolor(gparent, Red, root, z.up.up, Parent(WithSibling(z.up, u), z.up.color, Blacken(p)));
  }

  lemma ChildSide(z: Path<RbNode>, t: Tree<RbNode>, p: RbNode, root: RbRoot)
    requires At(z, t, p, root) && !z.Top?
    ensures z.val.right == p <==> z.RightOf?
    ensures z.val.left == p <==> z.LeftOf?
  {
    FocusSibling(z, t, p, root);
  }

  /** `mid` turns black and is rotated above its red parent `gparent`. */
  method LiftLeft(mid: RbNode, gparent: RbNode, root: RbRoot, ghost z: Path<RbNode>, ghost t: Tree<RbNode>)
    requires At(z, t, mid, root) && z.LeftOf? && gparent == z.val
    modifies root, Nodes(t) + PathNodes(z)
    ensures var g := RotatedRight(Parent(z, Red, Blacken(t)));
            At(z.up, g, mid, root) && Nodes(g) + PathNodes(z.up) == Nodes(t) + PathNodes(z)
  {
    Recolor(mid, Black, root, z, t);
    FocusUp(z, Blacken(t), mid, root);
    Recolor(gparent, Red, root, z.up, Parent(z, z.color, Blacken(t)));
    RotateRight(gparent, root, z.up, Parent(z, Red, Blacken(t)));
  }

  method LiftRight(mid: RbNode, gparent: RbNode, root: RbRoot, ghost z: Path<RbNode>, ghost t: Tree<RbNode>)
    requires At(z, t, mid, root) && z.RightOf? && gparent == z.val
    modifies root, Nodes(t) + PathNodes(z)
    ensures var g := RotatedLeft(Parent(z, Red, Blacken(t)));
            At(z.up, g, mid, root) && Nodes(g) + PathNodes(z.up) == Nodes(t) + PathNodes(z)
  {
    Recolor(mid, Black, root, z, t);
    FocusUp(z, Blacken(t), mid, root);
    Recolor(gparent, Red, root, z.up, Parent(z, z.color, Blacken(t)));
    RotateLeft(gparent, root, z.up, Parent(z, Red, Blacken(t)));
  }

  /** The black-uncle case with the parent on the left: `low` is the lower red node. */
  method InsertRotateLeftStep(node: RbNode, parent: RbNode, gparent: RbNode, root: RbRoot,
                              ghost z: Path<RbNode>, ghost t: Tree<RbNode>) returns (low: RbNode)
    requires At(z, t, node, root) && !z.Top? && z.up.LeftOf?
    requires parent == z.val && gparent == z.up.val
    modifies root, Nodes(t) + PathNodes(z)
    ensures var (w, u) := InsertRotated(z, t);
            At(w, u, low, root) && Nodes(u) + PathNodes(w) == Nodes(t) + PathNodes(z)
  {
    ChildSide(z, t, node, root);
    FocusUp(z, t, node, root);
    ghost var p := Parent(z, z.color, t);
    var mid := parent;
    low := node;
    if parent.right == node {
      RotateLeft(parent, root, z.up, p);
      p := RotatedLeft(p);
      low, mid := parent, node;
    }
    LiftLeft(mid, gparent, root, z.up, p);
    FocusLeft(z.up.up, InsertRotate(z, t), mid, root);
  }

  method InsertRotateRightStep(node: RbNode, parent: RbNode, gparent: RbNode, root: RbRoot,
                               ghost z: Path<RbNode>, ghost t: Tree<RbNode>) returns (low: RbNode)
    requires At(z, t, node, root) && !z.Top? && z.up.RightOf?
    requires parent == z.val && gparent == z.up.val
    modifies root, Nodes(t) + PathNodes(z)
    ensures var (w, u) := InsertRotated(z, t);
            At(w, u, low, root) && Nodes(u) + PathNodes(w) == Nodes(t) + PathNodes(z)
  {
    ChildSide(z, t, node, root);
    FocusUp(z, t, node, root);
    ghost var p := Parent(z, z.color, t);
    var mid := parent;
    low := node;
    if parent.left == node {
      RotateRight(parent, root, z.up, p);
      p := RotatedRight(p);
      low, mid := parent, node;
    }
    LiftRight(mid, gparent, root, z.up, p);
    FocusRight(z.up.up, InsertRotate(z, t), mid, root);
  }

  /** One iteration of the loop. */
  method InsertStep(node: RbNode, parent: RbNode, root: RbRoot, ghost z: Path<RbNode>, ghost t: Tree<RbNode>)
    returns (next: RbNode)
    requires At(z, t, node, root) && Clash(z, t) && parent == z.val
    modifies root, Nodes(t) + PathNodes(z)
    ensures var (w, u) := InsertNext(z, t);
            At(w, u, next, root) && Nodes(u) + PathNodes(w) == Nodes(t) + PathNodes(z)
  {
    ghost var p := Parent(z, z.color, t);
    FocusUp(z, t, node, root);
    FocusSibling(z.up, p, parent, root);
    ChildSide(z.up, p, parent, root);
    var gparent: RbNode := parent.parent;
    var uncle := if parent == gparent.left then gparent.right else gparent.left;
    if uncle != null && uncle.color.Red? {
      InsertRecolorStep(node, parent, gparent, uncle, root, z, t);
      next := gparent;
    } else if parent == gparent.left {
      next := InsertRotateLeftStep(node, parent, gparent, root, z, t);
    } else {
      next := InsertRotateRightStep(node, parent, gparent, root, z, t);
    }
  }

  /** Once `x` is linked as a red node into an otherwise valid tree, the loop turns the
      tree into `InsertFix`, which is valid and has the same order. */
  method RbInsertColor(x: RbNode, root: RbRoot, ghost z0: Path<RbNode>, ghost t0: Tree<RbNode>)
    requires At(z0, t0, x, root)
    requires RedBlack(t0) && IsRed(t0) && PathValid(z0, BlackHeight(t0))
    modifies root, Nodes(t0) + PathNodes(z0)
    ensures IsTree(InsertFix(z0, t0), root) && Valid(InsertFix(z0, t0))
    ensures Inorder(InsertFix(z0, t0)) == Before(z0) + Inorder(t0) + After(z0)
    ensures Nodes(InsertFix(z0, t0)) == Nodes(t0) + PathNodes(z0)
  {
    InsertFixCorrect(z0, t0);
    var node, parent := x, x.parent;
    ghost var z, t := z0, t0;
    while parent != null && parent.color.Red?
      invariant At(z, t, node, root) && parent == PathTop(z)
      invariant Nodes(t) + PathNodes(z) == Nodes(t0) + PathNodes(z0)
      invariant RedBlack(t) && IsRed(t) && PathValid(z, BlackHeight(t))
      invariant InsertFix(z, t) == InsertFix(z0, t0)
      decreases Length(z)
    {
      InsertNextFits(z, t);
      node := InsertStep(node, parent, root, z, t);
      z, t := InsertNext(z, t).0, InsertNext(z, t).1;
      parent := node.parent;
    }
    Refocus(z, t, node, root);
    var top: RbNode := root.node;
    Recolor(top, Black, root, Top, Plug(z, t));
  }

  /** The whole tree, seen from the root. */
  lemma {:induction false} Refocus(z: Path<RbNode>, t: Tree<RbNode>, p: RbNode?, root: RbRoot)
    requires At(z, t, p, root)
    ensures At(Top, Plug(z, t), root.node, root)
    ensures Nodes(Plug(z, t)) == Nodes(t) + PathNodes(z)
    decreases z
  {
    if !z.Top? {
      FocusUp(z, t, p, root);
      Refocus(z.up, Parent(z, z.color, t), z.val, root);
    }
  }

  // ---------- __rb_erase_color ----------

  lemma {:induction false} RootSide(z: Path<RbNode>, t: Tree<RbNode>, p: RbNode?, root: RbRoot)
    requires At(z, t, p, root)
    ensures root.node == p <==> z.Top?
    ensures !z.Top? ==> root.node in PathNodes(z)
    decreases z
  {
    if !z.Top? {
      FocusUp(z, t, p, root);
      RootSide(z.up, Parent(z, z.color, t), z.val, root);
      NodeOrNull(t, p, PathTop(z));
    }
  }

  lemma NodeOrNull(t: Tree<RbNode>, p: RbNode?, parent: RbNode?)
    requires Below(t, p, parent)
    ensures p != null <==> t.Node?
    ensures p != null ==> p in Nodes(t) && p == t.val && p.color == t.color
  {
  }

  /** The parent's subtree once the sibling and the parent have the given colours. */
  ghost function Painted(z: Path<RbNode>, t: Tree<RbNode>, sibling: Color, parent: Color): Tree<RbNode>
    requires !z.Top? && z.sib.Node?
  {
    Fork(z.LeftOf?, parent, t, z.val, z.sib.(color := sibling))
  }

  method PaintPair(node: RbNode?, parent: RbNode, other: RbNode, c: Color, d: Color, root: RbRoot,
                   ghost z: Path<RbNode>, ghost t: Tree<RbNode>)
    requires At(z, t, node, root) && !z.Top? && z.sib.Node? && parent == z.val && other == z.sib.val
    modifies Nodes(t) + PathNodes(z)
    ensures At(z.up, Painted(z, t, c, d), parent, root)
    ensures Nodes(Painted(z, t, c, d)) + PathNodes(z.up) == Nodes(t) + PathNodes(z)
  {
    FocusSibling(z, t, node, root);
    Recolor(other, c, root, SiblingPath(z, t), z.sib);
    ghost var o := z.sib.(color := c);
    FocusSibling(SiblingPath(z, t), o, other, root);
    FocusUp(WithSibling(z, o), t, node, root);
    Recolor(parent, d, root, z.up, Parent(WithSibling(z, o), z.color, t));
  }

  /** The sibling's subtree after its near child, black now, is rotated above it. */
  ghost function NearTurned(z: Path<RbNode>): Tree<RbNode>
    requires !z.Top? && z.sib.Node? && Near(z).Node?
  {
    var n, f := Near(z), Far(z);
    if z.LeftOf? then Node(Black, n.left, n.val, Node(Red, n.right, z.sib.val, f))
    else Node(Black, Node(Red, f, z.sib.val, n.left), n.val, n.right)
  }

  /** `if (p->rb_right) p->rb_right->rb_color = RB_BLACK` */
  method BlackenRight(p: RbNode, root: RbRoot, ghost z: Path<RbNode>, ghost t: Tree<RbNode>)
    requires At(z, t, p, root)
    modifies Nodes(t) + PathNodes(z)
    ensures t.Node? && At(z, t.(right := Blacken(t.right)), p, root)
    ensures Nodes(t.(right := Blacken(t.right))) == Nodes(t)
  {
    FocusRight(z, t, p, root);
    ghost var w := RightOf(z, t.color, t.val, t.left);
    if p.right != null {
      Recolor(p.right, Black, root, w, t.right);
    }
    FocusUp(w, Blacken(t.right), p.right, root);
  }

  /** `if (p->rb_left) p->rb_left->rb_color = RB_BLACK` */
  method BlackenLeft(p: RbNode, root: RbRoot, ghost z: Path<RbNode>, ghost t: Tree<RbNode>)
    requires At(z, t, p, root)
    modifies Nodes(t) + PathNodes(z)
    ensures t.Node? && At(z, t.(left := Blacken(t.left)), p, root)
    ensures Nodes(t.(left := Blacken(t.left))) == Nodes(t)
  {
    FocusLeft(z, t, p, root);
    ghost var w := LeftOf(z, t.color, t.val, t.right);
    if p.left != null {
      Recolor(p.left, Black, root, w, t.left);
    }
    FocusUp(w, Blacken(t.left), p.left, root);
  }

  /** A red sibling is rotated above the parent. */
  method LowerLeft(node: RbNode?, parent: RbNode, other: RbNode, root: RbRoot,
                   ghost z: Path<RbNode>, ghost t: Tree<RbNode>)
    requires At(z, t, node, root) && z.LeftOf? && z.sib.Node? && parent == z.val && other == z.sib.val
    modifies root, Nodes(t) + PathNodes(z)
    ensures At(RedSibling(z), t, node, root)
    ensures Nodes(t) + PathNodes(RedSibling(z)) == Nodes(t) + PathNodes(z)
  {
    PaintPair(node, parent, other, Black, Red, root, z, t);
    ghost var p := Painted(z, t, Black, Red);
    RotateLeft(parent, root, z.up, p);
    FocusLeft(z.up, RotatedLeft(p), other, root);
    FocusLeft(LeftOf(z.up, Black, other, z.sib.right), Node(Red, t, parent, z.sib.left), parent, root);
    assert Nodes(p) == Nodes(t) + {parent} + Nodes(z.sib);
  }

  /** The nephew next to the hole is rotated above the sibling. */
  method TurnNearLeft(node: RbNode?, parent: RbNode, other: RbNode, root: RbRoot,
                      ghost z: Path<RbNode>, ghost t: Tree<RbNode>)
    requires At(z, t, node, root) && z.LeftOf? && z.sib.Node? && parent == z.val && other == z.sib.val
    requires Near(z).Node?
    modifies root, Nodes(t) + PathNodes(z)
    ensures At(WithSibling(z, NearTurned(z)), t, node, root)
    ensures Nodes(NearTurned(z)) == Nodes(z.sib)
  {
    ghost var w, o := SiblingPath(z, t), z.sib;
    FocusSibling(z, t, node, root);
    BlackenLeft(other, root, w, o);
    o := o.(left := Blacken(o.left));
    Recolor(other, Red, root, w, o);
    o := o.(color := Red);
    RotateRight(other, root, w, o);
    FocusSibling(w, RotatedRight(o), z.sib.left.val, root);
  }

  /** The last rotation: the sibling takes the parent's place and colour. */
  method LiftSiblingLeft(node: RbNode?, parent: RbNode, other: RbNode, root: RbRoot,
                         ghost z: Path<RbNode>, ghost t: Tree<RbNode>)
    requires At(z, t, node, root) && z.LeftOf? && z.sib.Node? && parent == z.val && other == z.sib.val
    requires IsRed(Far(z))
    modifies root, Nodes(t) + PathNodes(z)
    ensures At(z.up, EraseRotate(z, t), other, root)
    ensures Nodes(EraseRotate(z, t)) + PathNodes(z.up) == Nodes(t) + PathNodes(z)
  {
    FocusSibling(z, t, node, root);
    ghost var w := SiblingPath(z, t);
    BlackenRight(other, root, w, z.sib);
    FocusSibling(w, z.sib.(right := Blacken(Far(z))), other, root);
    ghost var y := WithSibling(z, z.sib.(right := Blacken(Far(z))));
    FocusUp(y, t, node, root);
    var color := parent.color;
    PaintPair(node, parent, other, color, Black, root, y, t);
    RotateLeft(parent, root, z.up, Painted(y, t, color, Black));
  }

  /** A red sibling is rotated above the parent. */
  method LowerRight(node: RbNode?, parent: RbNode, other: RbNode, root: RbRoot,
                   ghost z: Path<RbNode>, ghost t: Tree<RbNode>)
    requires At(z, t, node, root) && z.RightOf? && z.sib.Node? && parent == z.val && other == z.sib.val
    modifies root, Nodes(t) + PathNodes(z)
    ensures At(RedSibling(z), t, node, root)
    ensures Nodes(t) + PathNodes(RedSibling(z)) == Nodes(t) + PathNodes(z)
  {
    PaintPair(node, parent, other, Black, Red, root, z, t);
    ghost var p := Painted(z, t, Black, Red);
    RotateRight(parent, root, z.up, p);
    FocusRight(z.up, RotatedRight(p), other, root);
    FocusRight(RightOf(z.up, Black, other, z.sib.left), Node(Red, z.sib.right, parent, t), parent, root);
    assert Nodes(p) == Nodes(t) + {parent} + Nodes(z.sib);
  }

  /** The nephew next to the hole is rotated above the sibling. */
  method TurnNearRight(node: RbNode?, parent: RbNode, other: RbNode, root: RbRoot,
                      ghost z: Path<RbNode>, ghost t: Tree<RbNode>)
    requires At(z, t, node, root) && z.RightOf? && z.sib.Node? && parent == z.val && other == z.sib.val
    requires Near(z).Node?
    modifies root, Nodes(t) + PathNodes(z)
    ensures At(WithSibling(z, NearTurned(z)), t, node, root)
    ensures Nodes(NearTurned(z)) == Nodes(z.sib)
  {
    ghost var w, o := SiblingPath(z, t), z.sib;
    FocusSibling(z, t, node, root);
    BlackenRight(other, root, w, o);
    o := o.(right := Blacken(o.right));
    Recolor(other, Red, root, w, o);
    o := o.(color := Red);
    RotateLeft(other, root, w, o);
    FocusSibling(w, RotatedLeft(o), z.sib.right.val, root);
  }

  /** The last rotation: the sibling takes the parent's place and colour. */
  method LiftSiblingRight(node: RbNode?, parent: RbNode, other: RbNode, root: RbRoot,
                         ghost z: Path<RbNode>, ghost t: Tree<RbNode>)
    requires At(z, t, node, root) && z.RightOf? && z.sib.Node? && parent == z.val && other == z.sib.val
    requires IsRed(Far(z))
    modifies root, Nodes(t) + PathNodes(z)
    ensures At(z.up, EraseRotate(z, t), other, root)
    ensures Nodes(EraseRotate(z, t)) + PathNodes(z.up) == Nodes(t) + PathNodes(z)
  {
    FocusSibling(z, t, node, root);
    ghost var w := SiblingPath(z, t);
    BlackenLeft(other, root, w, z.sib);
    FocusSibling(w, z.sib.(left := Blacken(Far(z))), other, root);
    ghost var y := WithSibling(z, z.sib.(left := Blacken(Far(z))));
    FocusUp(y, t, node, root);
    var color := parent.color;
    PaintPair(node, parent, other, color, Black, root, y, t);
    RotateRight(parent, root, z.up, Painted(y, t, color, Black));
  }

  method PaintSibling(node: RbNode?, parent: RbNode, other: RbNode, root: RbRoot,
                      ghost z: Path<RbNode>, ghost t: Tree<RbNode>)
    requires At(z, t, node, root) && !z.Top? && z.sib.Node? && parent == z.val && other == z.sib.val
    modifies Nodes(t) + PathNodes(z)
    ensures At(z.up, EraseRecolor(z, t), parent, root)
    ensures Nodes(EraseRecolor(z, t)) + PathNodes(z.up) == Nodes(t) + PathNodes(z)
  {
    FocusSibling(z, t, node, root);
    Recolor(other, Red, root, SiblingPath(z, t), z.sib);
    ghost var o := z.sib.(color := Red);
    FocusSibling(SiblingPath(z, t), o, other, root);
    FocusUp(WithSibling(z, o), t, node, root);
  }

  /** The rest of one iteration, with a black sibling: either the sibling turns red and
      the loop moves up, or rotations finish the job. */
  method EraseStepLeft(node: RbNode?, parent: RbNode, root: RbRoot, ghost z: Path<RbNode>, ghost t: Tree<RbNode>)
    returns (done: bool)
    requires At(z, t, node, root) && z.LeftOf? && Short(z, t) && !IsRed(z.sib) && parent == z.val
    modifies root, Nodes(t) + PathNodes(z)
    ensures done <==> IsRed(Near(z)) || IsRed(Far(z))
    ensures var p := if done then EraseRotate(z, t) else EraseRecolor(z, t);
            && At(z.up, p, p.val, root) && (!done ==> p.val == parent)
            && Nodes(p) + PathNodes(z.up) == Nodes(t) + PathNodes(z)
  {
    FocusSibling(z, t, node, root);
    var other: RbNode := parent.right;
    ghost var w := SiblingPath(z, t);
    FocusLeft(w, z.sib, other, root);
    FocusRight(w, z.sib, other, root);
    NodeOrNull(z.sib.left, other.left, other);
    NodeOrNull(z.sib.right, other.right, other);
    if (other.left == null || other.left.color.Black?) && (other.right == null || other.right.color.Black?) {
      PaintSibling(node, parent, other, root, z, t);
      done := false;
    } else {
      ghost var y := z;
      if other.right == null || other.right.color.Black? {
        TurnNearLeft(node, parent, other, root, z, t);
        y := WithSibling(z, NearTurned(z));
        FocusSibling(y, t, node, root);
        other := parent.right;
      }
      LiftSiblingLeft(node, parent, other, root, y, t);
      done := true;
    }
  }

  /** The rest of one iteration, with a black sibling: either the sibling turns red and
      the loop moves up, or rotations finish the job. */
  method EraseStepRight(node: RbNode?, parent: RbNode, root: RbRoot, ghost z: Path<RbNode>, ghost t: Tree<RbNode>)
    returns (done: bool)
    requires At(z, t, node, root) && z.RightOf? && Short(z, t) && !IsRed(z.sib) && parent == z.val
    modifies root, Nodes(t) + PathNodes(z)
    ensures done <==> IsRed(Near(z)) || IsRed(Far(z))
    ensures var p := if done then EraseRotate(z, t) else EraseRecolor(z, t);
            && At(z.up, p, p.val, root) && (!done ==> p.val == parent)
            && Nodes(p) + PathNodes(z.up) == Nodes(t) + PathNodes(z)
  {
    FocusSibling(z, t, node, root);
    var other: RbNode := parent.left;
    ghost var w := SiblingPath(z, t);
    FocusRight(w, z.sib, other, root);
    FocusLeft(w, z.sib, other, root);
    NodeOrNull(z.sib.right, other.right, other);
    NodeOrNull(z.sib.left, other.left, other);
    if (other.right == null || other.right.color.Black?) && (other.left == null || other.left.color.Black?) {
      PaintSibling(node, parent, other, root, z, t);
      done := false;
    } else {
      ghost var y := z;
      if other.left == null || other.left.color.Black? {
        TurnNearRight(node, parent, other, root, z, t);
        y := WithSibling(z, NearTurned(z));
        FocusSibling(y, t, node, root);
        other := parent.left;
      }
      LiftSiblingRight(node, parent, other, root, y, t);
      done := true;
    }
  }

  /** The head of an iteration: afterwards the sibling is black. */
  method LowerSibling(node: RbNode?, parent: RbNode, root: RbRoot, ghost z: Path<RbNode>, ghost t: Tree<RbNode>)
    requires At(z, t, node, root) && Short(z, t) && parent == z.val
    modifies root, Nodes(t) + PathNodes(z)
    ensures var w := BlackSibling(z, t);
            At(w, t, node, root) && w.val == parent && Nodes(t) + PathNodes(w) == Nodes(t) + PathNodes(z)
  {
    FocusSibling(z, t, node, root);
    NullableSide(z, t, node, root);
    if parent.left == node {
      var other: RbNode := parent.right;
      if other.color.Red? {
        LowerLeft(node, parent, other, root, z, t);
      }
    } else {
      var other: RbNode := parent.left;
      if other.color.Red? {
        LowerRight(node, parent, other, root, z, t);
      }
    }
  }

  lemma NullableSide(z: Path<RbNode>, t: Tree<RbNode>, p: RbNode?, root: RbRoot)
    requires At(z, t, p, root) && !z.Top? && z.sib.Node?
    ensures z.val.left == p <==> z.LeftOf?
  {
    FocusSibling(z, t, p, root);
    NodeOrNull(t, p, PathTop(z));
  }

  /** One whole iteration: `w` is the path below which it works. */
  method EraseStep(node: RbNode?, parent: RbNode, root: RbRoot, ghost z: Path<RbNode>, ghost t: Tree<RbNode>)
    returns (done: bool)
    requires At(z, t, node, root) && Short(z, t) && parent == z.val
    modifies root, Nodes(t) + PathNodes(z)
    ensures done <==> EraseDone(z, t)
    ensures var (w, p) := EraseNext(z, t);
            && At(w, p, p.val, root) && (!done ==> p.val == parent)
            && Nodes(p) + PathNodes(w) == Nodes(t) + PathNodes(z)
  {
    ghost var w := BlackSibling(z, t);
    LowerSibling(node, parent, root, z, t);
    FocusSibling(w, t, node, root);
    NullableSide(w, t, node, root);
    if parent.left == node {
      done := EraseStepLeft(node, parent, root, w, t);
    } else {
      done := EraseStepRight(node, parent, root, w, t);
    }
  }

  /** What the loop of `__rb_erase_color` keeps: the tree it will return. */
  ghost predicate Erasing(z: Path<RbNode>, t: Tree<RbNode>, p: RbNode?, parent: RbNode?, root: RbRoot,
          goal: Tree<RbNode>)
    reads Nodes(t), PathNodes(z), root
  {
    && At(z, t, p, root) && parent == PathTop(z)
    && RedBlack(Blacken(t)) && PathValid(z, BlackHeight(t) + 1) && EraseFix(z, t) == goal
    && (root.node == p <==> z.Top?) && (IsRed(t) <==> p != null && p.color.Red?)
  }

  method EraseIterate(node: RbNode?, parent: RbNode, root: RbRoot, ghost z: Path<RbNode>, ghost t: Tree<RbNode>)
    returns (next: RbNode?, up: RbNode?, done: bool, ghost w: Path<RbNode>, ghost p: Tree<RbNode>)
    requires Short(z, t) && Erasing(z, t, node, parent, root, EraseFix(z, t))
    modifies root, Nodes(t) + PathNodes(z)
    ensures Nodes(p) + PathNodes(w) == Nodes(t) + PathNodes(z)
    ensures if done then At(w, p, next, root) && Plug(w, Blacken(p)) == EraseFix(z, t)
            else && Erasing(w, p, next, up, root, EraseFix(z, t))
                 && Length(w) + (if IsRed(p) then 0 else 1) < Length(z) + (if IsRed(t) then 0 else 1)
  {
    EraseNextFits(z, t);
    done := EraseStep(node, parent, root, z, t);
    w, p := EraseNext(z, t).0, EraseNext(z, t).1;
    if done {
      Refocus(w, p, p.val, root);
      next, up := root.node, null;
      w, p := Top, Plug(w, p);
    } else {
      next, up := parent, parent.parent;
      FocusFacts(w, p, next, root);
    }
  }

  /** The loop of `__rb_erase_color`. */
  method RbEraseColor(x: RbNode?, up: RbNode?, root: RbRoot, ghost z0: Path<RbNode>, ghost t0: Tree<RbNode>)
    requires At(z0, t0, x, root) && up == PathTop(z0)
    requires RedBlack(Blacken(t0)) && PathValid(z0, BlackHeight(t0) + 1)
    modifies root, Nodes(t0) + PathNodes(z0)
    ensures IsTree(EraseFix(z0, t0), root)
    ensures Nodes(EraseFix(z0, t0)) == Nodes(t0) + PathNodes(z0)
  {
    var node, parent := x, up;
    ghost var z, t := z0, t0;
    FocusFacts(z, t, node, root);
    while (node == null || node.color.Black?) && node != root.node
      invariant Erasing(z, t, node, parent, root, EraseFix(z0, t0))
      invariant Nodes(t) + PathNodes(z) == Nodes(t0) + PathNodes(z0)
      decreases Length(z) + if IsRed(t) then 0 else 1
    {
      var done;
      node, parent, done, z, t := EraseIterate(node, parent, root, z, t);
      if done {
        break;
      }
    }
    EndErase(node, root, z, t);
  }

  method EndErase(node: RbNode?, root: RbRoot, ghost z: Path<RbNode>, ghost t: Tree<RbNode>)
    requires At(z, t, node, root)
    modifies Nodes(t) + PathNodes(z)
    ensures IsTree(Plug(z, Blacken(t)), root)
    ensures Nodes(Plug(z, Blacken(t))) == Nodes(t) + PathNodes(z)
  {
    NodeOrNull(t, node, PathTop(z));
    if node != null {
      Recolor(node, Black, root, z, t);
    }
    Refocus(z, Blacken(t), node, root);
  }

  lemma FocusFacts(z: Path<RbNode>, t: Tree<RbNode>, p: RbNode?, root: RbRoot)
    requires At(z, t, p, root)
    ensures root.node == p <==> z.Top?
    ensures IsRed(t) <==> p != null && p.color.Red?
    ensures p != null ==> p.parent == PathTop(z)
  {
    RootSide(z, t, p, root);
    NodeOrNull(t, p, PathTop(z));
  }

  // ---------- rb_erase ----------

  /** Take a node with at most one child out: the child moves up. */
  method Splice(node: RbNode, child: RbNode?, parent: RbNode?, root: RbRoot, ghost z: Path<RbNode>,
          ghost t: Tree<RbNode>,
                ghost rest: Tree<RbNode>)
    requires At(z, t, node, root) && parent == PathTop(z)
    requires if t.left.Leaf? then child == node.right && rest == t.right
             else t.right.Leaf? && child == node.left && rest == t.left
    modifies root, Nodes(t) + PathNodes(z)
    ensures At(z, rest, child, root)
    ensures Nodes(rest) + PathNodes(z) == Nodes(t) + PathNodes(z) - {node}
    ensures node.left == old(node.left) && node.right == old(node.right) && node.color == old(node.color)
    ensures node.parent == old(node.parent)
  {
    NodesAllocated(t);
    PathNodesAllocated(z);
    NodeOrNull(rest, child, node);
    Reparent(child, parent, rest, node);
    assert Above(z, node, root);
    Redirect(node, child, parent, root, z);
  }

  /** The tree without its leftmost node. */
  ghost function MinRemoved<V>(t: Tree<V>): Tree<V>
    requires t.Node?
  {
    if t.left.Leaf? then t.right else t.(left := MinRemoved(t.left))
  }

  lemma {:induction false} ClimbMin(y: Path<RbNode>, r: Tree<RbNode>, p: RbNode?, root: RbRoot) returns (q: RbNode?)
    requires r.Node? && At(MinPath(y, r), MinTree(r).right, p, root)
    ensures At(y, MinRemoved(r), q, root)
    ensures Nodes(MinRemoved(r)) + PathNodes(y) == Nodes(MinTree(r).right) + PathNodes(MinPath(y, r))
    decreases r
  {
    if r.left.Leaf? {
      q := p;
    } else {
      var w := LeftOf(y, r.color, r.val, r.right);
      q := ClimbMin(w, r.left, p, root);
      FocusUp(w, MinRemoved(r.left), q, root);
      q := r.val;
    }
  }

  lemma {:induction false} DescendMin(y: Path<RbNode>, r: Tree<RbNode>, q: RbNode?, root: RbRoot) returns (p: RbNode?)
    requires r.Node? && At(y, MinRemoved(r), q, root)
    ensures At(MinPath(y, r), MinTree(r).right, p, root)
    ensures Nodes(MinRemoved(r)) + PathNodes(y) == Nodes(MinTree(r).right) + PathNodes(MinPath(y, r))
    decreases r
  {
    if r.left.Leaf? {
      p := q;
    } else {
      FocusLeft(y, MinRemoved(r), q, root);
      p := DescendMin(LeftOf(y, r.color, r.val, r.right), r.left, q.left, root);
    }
  }

  /** `node` takes over the links of `prior`, whose subtree is `t`. */
  method TakeLinks(node: RbNode, prior: RbNode, ghost t: Tree<RbNode>, ghost parent: RbNode?)
    requires Below(t, prior, parent) && Distinct(t) && node !in Nodes(t)
    requires t.left.Node?
    modifies {node} + Nodes(t)
    ensures Below(t.(val := node), node, parent)
    ensures prior.parent == parent
  {
    NodesAllocated(t);
    NodeOrNull(t.left, prior.left, prior);
    NodeOrNull(t.right, prior.right, prior);
    node.parent := prior.parent;
    node.color := prior.color;
    node.right := prior.right;
    node.left := prior.left;
    Reparent(prior.left, node, t.left, prior);
    Reparent(prior.right, node, t.right, prior);
  }

  method Substitute(node: RbNode, prior: RbNode, root: RbRoot, ghost z: Path<RbNode>, ghost t: Tree<RbNode>)
    requires At(z, t, prior, root) && node !in Nodes(t) + PathNodes(z) && t.left.Node?
    modifies root, {node} + Nodes(t) + PathNodes(z)
    ensures At(z, t.(val := node), node, root)
    ensures Nodes(t.(val := node)) + PathNodes(z) == Nodes(t) + PathNodes(z) - {prior} + {node}
  {
    NodesAllocated(t);
    PathNodesAllocated(z);
    TakeLinks(node, prior, t, PathTop(z));
    assert Above(z, prior, root);
    Redirect(prior, node, prior.parent, root, z);
  }

  /** The leftmost node below the right child. */
  method Successor(prior: RbNode, root: RbRoot, ghost z: Path<RbNode>, ghost t: Tree<RbNode>)
    returns (node: RbNode)
    requires At(z, t, prior, root) && t.right.Node?
    ensures var y := RightOf(z, t.color, t.val, t.left);
            && At(MinPath(y, t.right), MinTree(t.right), node, root)
            && Nodes(MinTree(t.right)) + PathNodes(MinPath(y, t.right)) == Nodes(t) + PathNodes(z)
  {
    FocusRight(z, t, prior, root);
    node := prior.right;
    ghost var w, u := RightOf(z, t.color, t.val, t.left), t.right;
    while node.left != null
      invariant u.Node? && At(w, u, node, root)
      invariant MinPath(w, u) == MinPath(RightOf(z, t.color, t.val, t.left), t.right) && MinTree(u) == MinTree(t.right)
      invariant Nodes(u) + PathNodes(w) == Nodes(t) + PathNodes(z)
      decreases u
    {
      FocusLeft(w, u, node, root);
      NodeOrNull(u.left, node.left, node);
      w, u, node := LeftOf(w, u.color, u.val, u.right), u.left, node.left;
    }
    FocusLeft(w, u, node, root);
    NodeOrNull(u.left, node.left, node);
  }

  /** The path to the leftmost node of `t.right` with `v` above it. */
  ghost function SuccessorPath<V>(z: Path<V>, t: Tree<V>, v: V): Path<V>
    requires t.Node? && t.right.Node?
  {
    MinPath(RightOf(z, t.color, v, t.left), t.right)
  }

  /** Find the successor and take it out of its place. */
  method DetachSuccessor(prior: RbNode, root: RbRoot, ghost z: Path<RbNode>, ghost t: Tree<RbNode>)
    returns (node: RbNode, child: RbNode?, parent: RbNode?, color: Color)
    requires At(z, t, prior, root) && t.left.Node? && t.right.Node?
    modifies root, Nodes(t) + PathNodes(z)
    ensures var m, w := MinTree(t.right), SuccessorPath(z, t, prior);
            && At(w, m.right, child, root) && node == m.val && color == m.color && parent == PathTop(w)
            && Nodes(m.right) + PathNodes(w) == Nodes(t) + PathNodes(z) - {node}
            && node in Nodes(t.right)
  {
    node := Successor(prior, root, z, t);
    ghost var w, m := SuccessorPath(z, t, t.val), MinTree(t.right);
    FocusRight(w, m, node, root);
    FocusLeft(w, m, node, root);
    child, parent, color := node.right, node.parent, node.color;
    Splice(node, child, parent, root, w, m, m.right);
    MinNodes(t.right);
  }

  lemma {:induction false} MinNodes(t: Tree<RbNode>)
    requires t.Node?
    ensures MinTree(t).val in Nodes(t)
  {
    if t.left.Node? { MinNodes(t.left); }
  }

  /** The new parent of what the successor left behind: the successor itself if it was
      the erased node's child. */
  lemma {:induction false} SuccessorParent(y: Path<RbNode>, y': Path<RbNode>, r: Tree<RbNode>)
    requires r.Node?
    ensures r.left.Leaf? ==> MinPath(y, r) == y && MinPath(y', r) == y'
    ensures r.left.Node? ==> PathTop(MinPath(y, r)) == PathTop(MinPath(y', r)) != null
    ensures r.left.Node? ==> PathTop(MinPath(y, r)) in Nodes(r)
    decreases r
  {
    if r.left.Node? {
      SuccessorParent(LeftOf(y, r.color, r.val, r.right), LeftOf(y', r.color, r.val, r.right), r.left);
    }
  }

  method PlaceSuccessor(node: RbNode, prior: RbNode, child: RbNode?, root: RbRoot, ghost z: Path<RbNode>,
          ghost t: Tree<RbNode>)
    requires t.Node? && t.left.Node? && t.right.Node? && t.val == prior && node == MinTree(t.right).val
    requires At(SuccessorPath(z, t, prior), MinTree(t.right).right, child, root)
    requires node !in Nodes(MinTree(t.right).right) + PathNodes(SuccessorPath(z, t, prior))
    modifies root, {node} + Nodes(MinTree(t.right).right) + PathNodes(SuccessorPath(z, t, prior))
    ensures var c, w, w' := MinTree(t.right).right, SuccessorPath(z, t, prior), SuccessorPath(z, t, node);
            At(w', c, child, root) && Nodes(c) + PathNodes(w') == Nodes(c) + PathNodes(w) - {prior} + {node}
  {
    ghost var r := t.right;
    ghost var y := RightOf(z, t.color, prior, t.left);
    ghost var q := ClimbMin(y, r, child, root);
    ghost var u := t.(right := MinRemoved(r));
    FocusUp(y, MinRemoved(r), q, root);
    Substitute(node, prior, root, z, u);
    FocusRight(z, u.(val := node), node, root);
    ghost var p := DescendMin(RightOf(z, t.color, node, t.left), r, node.right, root);
    NodeOrNull(MinTree(r).right, p, PathTop(SuccessorPath(z, t, node)));
  }

  /** Where `rb_erase` continues once a node with two children left the tree and its
      successor stands in its place. */
  method UnlinkInner(prior: RbNode, root: RbRoot, ghost z: Path<RbNode>, ghost t: Tree<RbNode>)
    returns (child: RbNode?, parent: RbNode?, color: Color)
    requires At(z, t, prior, root) && t.left.Node? && t.right.Node?
    modifies root, Nodes(t) + PathNodes(z)
    ensures var (w, c, d) := Unlinked(z, t);
            && At(w, c, child, root) && parent == PathTop(w) && color == d
            && Nodes(c) + PathNodes(w) == Nodes(t) + PathNodes(z) - {prior}
  {
    var node;
    node, child, parent, color := DetachSuccessor(prior, root, z, t);
    NodeOrNull(MinTree(t.right).right, child, PathTop(SuccessorPath(z, t, prior)));
    PlaceSuccessor(node, prior, child, root, z, t);
    SuccessorParent(RightOf(z, t.color, prior, t.left), RightOf(z, t.color, node, t.left), t.right);
    if parent == prior {
      parent := node;
    }
  }

  /** Take the node out of the tree, but without restoring the black heights. */
  method Unlink(node: RbNode, root: RbRoot, ghost z: Path<RbNode>, ghost t: Tree<RbNode>)
    returns (child: RbNode?, parent: RbNode?, color: Color)
    requires At(z, t, node, root) && t.Node?
    modifies root, Nodes(t) + PathNodes(z)
    ensures var (w, c, d) := Unlinked(z, t);
            && At(w, c, child, root) && parent == PathTop(w) && color == d
            && Nodes(c) + PathNodes(w) == Nodes(t) + PathNodes(z) - {node}
  {
    FocusLeft(z, t, node, root);
    FocusRight(z, t, node, root);
    NodeOrNull(t.left, node.left, node);
    NodeOrNull(t.right, node.right, node);
    if node.left == null || node.right == null {
      child := if node.left == null then node.right else node.left;
      parent, color := node.parent, node.color;
      Splice(node, child, parent, root, z, t, Unlinked(z, t).1);
    } else {
      child, parent, color := UnlinkInner(node, root, z, t);
    }
  }

  /** Erasing takes exactly the node out and leaves a valid tree, in the same order. */
  method RbErase(node: RbNode, root: RbRoot, ghost z: Path<RbNode>, ghost t: Tree<RbNode>)
    requires At(z, t, node, root) && Valid(Plug(z, t))
    modifies root, Nodes(t) + PathNodes(z)
    ensures IsTree(Erase(z, t), root) && Valid(Erase(z, t))
    ensures Inorder(Plug(z, t)) == Before(z) + Inorder(t.left) + [node] + Inorder(t.right) + After(z)
    ensures Inorder(Erase(z, t)) == Before(z) + Inorder(t.left) + Inorder(t.right) + After(z)
    ensures Nodes(Erase(z, t)) == Nodes(t) + PathNodes(z) - {node}
  {
    hide Valid, Unlinked, PathValid, RedBlack;
    EraseCorrect(z, t);
    UnlinkedFits(z, t);
    ghost var (w, c, _) := Unlinked(z, t);
    var child, parent, color := Unlink(node, root, z, t);
    if color.Black? {
      RbEraseColor(child, parent, root, w, c);
    } else {
      Refocus(w, c, child, root);
    }
  }

  // ---------- rb_link_node ----------

  /** The pointer that `rb_link_node` is given to fill. */
  datatype Link = RootLink | LeftLink | RightLink

  method RbLinkNode(node: RbNode, parent: RbNode?, link: Link, root: RbRoot, ghost z: Path<RbNode>)
    requires At(z, Leaf, null, root) && parent == PathTop(z) && node !in PathNodes(z)
    requires link == if z.Top? then RootLink else if z.LeftOf? then LeftLink else RightLink
    modifies root, node, PathNodes(z)
    ensures At(z, Node(Red, Leaf, node, Leaf), node, root)
    ensures Nodes(Node(Red, Leaf, node, Leaf)) + PathNodes(z) == PathNodes(z) + {node}
  {
    node.parent := parent;
    node.color := Red;
    node.left, node.right := null, null;
    match link
    case RootLink => root.node := node;
    case LeftLink => parent.left := node;
    case RightLink => parent.right := node;
  }

  // ---------- rb_first, rb_next, rb_prev ----------

  /** The node is a focus of the tree `whole`. */
  ghost predicate Visits(z: Path<RbNode>, t: Tree<RbNode>, p: RbNode, root: RbRoot, whole: Tree<RbNode>)
    reads Nodes(t), PathNodes(z), root
  {
    t.Node? && At(z, t, p, root) && Plug(z, t) == whole
  }

  /** Position of the focused node in the order. */
  ghost function Position<V>(z: Path<V>, t: Tree<V>): nat
    requires t.Node?
  {
    |Before(z)| + |Inorder(t.left)|
  }

  lemma PositionIs(z: Path<RbNode>, t: Tree<RbNode>)
    requires t.Node?
    ensures var k, order := Position(z, t), Inorder(Plug(z, t));
            && k < |order| && order[k] == t.val
            && order[..k] == Before(z) + Inorder(t.left) && order[k + 1..] == Inorder(t.right) + After(z)
  {
    InorderPlug(z, t);
    hide Plug, Before, After;
    assert Inorder(t) == Inorder(t.left) + [t.val] + Inorder(t.right);
    MiddleOf(Before(z), Inorder(t.left), t.val, Inorder(t.right), After(z));
  }

  lemma MiddleOf<V>(a: seq<V>, b: seq<V>, v: V, c: seq<V>, d: seq<V>)
    ensures var order, k := a + (b + [v] + c) + d, |a| + |b|;
            k < |order| && order[k] == v && order[..k] == a + b && order[k + 1..] == c + d
  {
    assert a + (b + [v] + c) + d == (a + b) + [v] + (c + d);
  }

  /** Go down to the left as far as possible. */
  method Leftmost(start: RbNode, root: RbRoot, ghost z0: Path<RbNode>, ghost t0: Tree<RbNode>)
    returns (n: RbNode, ghost z: Path<RbNode>, ghost t: Tree<RbNode>)
    requires At(z0, t0, start, root)
    ensures Visits(z, t, n, root, Plug(z0, t0)) && t.left.Leaf? && Before(z) == Before(z0)
  {
    n, z, t := start, z0, t0;
    while n.left != null
      invariant Visits(z, t, n, root, Plug(z0, t0)) && Before(z) == Before(z0)
      decreases t
    {
      FocusLeft(z, t, n, root);
      NodeOrNull(t.left, n.left, n);
      z, t, n := LeftOf(z, t.color, t.val, t.right), t.left, n.left;
    }
    FocusLeft(z, t, n, root);
    NodeOrNull(t.left, n.left, n);
  }

  method Rightmost(start: RbNode, root: RbRoot, ghost z0: Path<RbNode>, ghost t0: Tree<RbNode>)
    returns (n: RbNode, ghost z: Path<RbNode>, ghost t: Tree<RbNode>)
    requires At(z0, t0, start, root)
    ensures Visits(z, t, n, root, Plug(z0, t0)) && t.right.Leaf? && After(z) == After(z0)
  {
    n, z, t := start, z0, t0;
    while n.right != null
      invariant Visits(z, t, n, root, Plug(z0, t0)) && After(z) == After(z0)
      decreases t
    {
      FocusRight(z, t, n, root);
      NodeOrNull(t.right, n.right, n);
      z, t, n := RightOf(z, t.color, t.val, t.left), t.right, n.right;
    }
    FocusRight(z, t, n, root);
    NodeOrNull(t.right, n.right, n);
  }

  method RbFirst(root: RbRoot, ghost whole: Tree<RbNode>)
    returns (n: RbNode?, ghost z: Path<RbNode>, ghost t: Tree<RbNode>)
    requires IsTree(whole, root)
    ensures n == null <==> Inorder(whole) == []
    ensures n != null ==> Visits(z, t, n, root, whole) && Position(z, t) == 0 && n == Inorder(whole)[0]
  {
    n, z, t := root.node, Top, whole;
    if n == null {
      return;
    }
    n, z, t := Leftmost(n, root, Top, whole);
    PositionIs(z, t);
  }

  /** The next node in the order, or null after the last one. */
  method RbNext(start: RbNode, root: RbRoot, ghost whole: Tree<RbNode>,
                ghost z0: Path<RbNode>, ghost t0: Tree<RbNode>)
    returns (n: RbNode?, ghost z: Path<RbNode>, ghost t: Tree<RbNode>)
    requires Visits(z0, t0, start, root, whole)
    ensures n == null <==> Position(z0, t0) + 1 == |Inorder(whole)|
    ensures n != null ==> && Visits(z, t, n, root, whole) && Position(z, t) == Position(z0, t0) + 1 < |Inorder(whole)|
                          && n == Inorder(whole)[Position(z, t)]
  {
    PositionIs(z0, t0);
    FocusRight(z0, t0, start, root);
    NodeOrNull(t0.right, start.right, start);
    if start.right != null {
      n, z, t := Leftmost(start.right, root, RightOf(z0, t0.color, start, t0.left), t0.right);
      PositionIs(z, t);
      return;
    }
    var node: RbNode := start;
    z, t := z0, t0;
    while node.parent != null && node == node.parent.right
      invariant Visits(z, t, node, root, whole)
      invariant |Before(z)| + |Inorder(t)| == Position(z0, t0) + 1 && After(z) == After(z0)
      decreases z
    {
      ChildSide(z, t, node, root);
      FocusUp(z, t, node, root);
      z, t, node := z.up, Parent(z, z.color, t), node.parent;
    }
    n := node.parent;
    if n != null {
      ChildSide(z, t, node, root);
      FocusUp(z, t, node, root);
      z, t := z.up, Parent(z, z.color, t);
      PositionIs(z, t);
    }
  }

  /** The previous node in the order, or null before the first one. */
  method RbPrev(start: RbNode, root: RbRoot, ghost whole: Tree<RbNode>,
                ghost z0: Path<RbNode>, ghost t0: Tree<RbNode>)
    returns (n: RbNode?, ghost z: Path<RbNode>, ghost t: Tree<RbNode>)
    requires Visits(z0, t0, start, root, whole)
    ensures n == null <==> Position(z0, t0) == 0
    ensures n != null ==> && Visits(z, t, n, root, whole) && Position(z, t) + 1 == Position(z0, t0) <= |Inorder(whole)|
                          && n == Inorder(whole)[Position(z, t)]
  {
    PositionIs(z0, t0);
    FocusLeft(z0, t0, start, root);
    NodeOrNull(t0.left, start.left, start);
    if start.left != null {
      n, z, t := Rightmost(start.left, root, LeftOf(z0, t0.color, start, t0.right), t0.left);
      PositionIs(z, t);
      return;
    }
    var node: RbNode := start;
    z, t := z0, t0;
    while node.parent != null && node == node.parent.left
      invariant Visits(z, t, node, root, whole)
      invariant |Before(z)| == Position(z0, t0)
      decreases z
    {
      ChildSide(z, t, node, root);
      FocusUp(z, t, node, root);
      z, t, node := z.up, Parent(z, z.color, t), node.parent;
    }
    n := node.parent;
    if n != null {
      ChildSide(z, t, node, root);
      FocusUp(z, t, node, root);
      z, t := z.up, Parent(z, z.color, t);
      PositionIs(z, t);
    }
  }

  /** `rb_first` and then `rb_next` until null, as `Upstream::check_all_breaker` walks
      its groups: every node exactly once, in order. */
  method Walk(root: RbRoot, ghost whole: Tree<RbNode>) returns (visited: seq<RbNode>)
    requires IsTree(whole, root)
    ensures visited == Inorder(whole)
  {
    hide IsTree, Position, Inorder, Plug;
    visited := [];
    var cur, z, t := RbFirst(root, whole);
    while cur != null
      invariant cur != null ==> Visits(z, t, cur, root, whole) && Position(z, t) == |visited|
      invariant visited <= Inorder(whole) && (cur == null ==> |visited| == |Inorder(whole)|)
      decreases |Inorder(whole)| - |visited|
    {
      PositionIs(z, t);
      visited := visited + [cur];
      cur, z, t := RbNext(cur, root, whole, z, t);
    }
  }
}
