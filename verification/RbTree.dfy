/** Red-black trees as values, with the path from a node to the root as a zipper.

    A `Path` is the chain of parent pointers that `kernel/rbtree.c` follows: each
    iteration of a fix-up loop there is one recursive call here.  The pointer-level
    methods in RbHeap are proved to compute exactly these functions. */
module RbTree {

  datatype Color = Red | Black

  datatype Tree<V> = Leaf | Node(color: Color, left: Tree<V>, val: V, right: Tree<V>)

  /** What surrounds a subtree: the parent (its colour, value and other child) and
      what surrounds the parent.  `LeftOf` says that the hole is the left child. */
  datatype Path<V> =
    | Top
    | LeftOf(up: Path<V>, color: Color, val: V, sib: Tree<V>)
    | RightOf(up: Path<V>, color: Color, val: V, sib: Tree<V>)

  /** The same surroundings with another sibling. */
  function WithSibling<V>(z: Path<V>, s: Tree<V>): Path<V>
    requires !z.Top?
  {
    if z.LeftOf? then LeftOf(z.up, z.color, z.val, s) else RightOf(z.up, z.color, z.val, s)
  }

  function Plug<V>(z: Path<V>, t: Tree<V>): Tree<V>
    decreases z
  {
    match z
    case Top => t
    case LeftOf(up, c, v, s) => Plug(up, Node(c, t, v, s))
    case RightOf(up, c, v, s) => Plug(up, Node(c, s, v, t))
  }

  function Inorder<V>(t: Tree<V>): seq<V>
  {
    match t
    case Leaf => []
    case Node(_, l, v, r) => Inorder(l) + [v] + Inorder(r)
  }

  /** The values that come before, respectively after, the hole. */
  function Before<V>(z: Path<V>): seq<V>
  {
    match z
    case Top => []
    case LeftOf(up, _, _, _) => Before(up)
    case RightOf(up, _, v, s) => Before(up) + Inorder(s) + [v]
  }

  function After<V>(z: Path<V>): seq<V>
  {
    match z
    case Top => []
    case LeftOf(up, _, v, s) => [v] + Inorder(s) + After(up)
    case RightOf(up, _, _, _) => After(up)
  }

  lemma {:induction false} InorderPlug<V>(z: Path<V>, t: Tree<V>)
    ensures Inorder(Plug(z, t)) == Before(z) + Inorder(t) + After(z)
    decreases z
  {
    match z
    case Top =>
    case LeftOf(up, c, v, s) => InorderPlug(up, Node(c, t, v, s));
    case RightOf(up, c, v, s) => InorderPlug(up, Node(c, s, v, t));
  }

  // ---------- The red-black conditions ----------

  predicate IsRed<V>(t: Tree<V>) { t.Node? && t.color.Red? }

  /** Number of black nodes on the leftmost way down. */
  function BlackHeight<V>(t: Tree<V>): nat
  {
    match t
    case Leaf => 0
    case Node(c, l, _, _) => BlackHeight(l) + if c.Black? then 1 else 0
  }

  /** Equal black heights below every node and no red node with a red child. */
  predicate RedBlack<V>(t: Tree<V>)
  {
    match t
    case Leaf => true
    case Node(c, l, _, r) =>
      && RedBlack(l) && RedBlack(r)
      && BlackHeight(l) == BlackHeight(r)
      && (c.Red? ==> !IsRed(l) && !IsRed(r))
  }

  predicate Valid<V>(t: Tree<V>) { RedBlack(t) && !IsRed(t) }

  predicate BlackTop<V>(z: Path<V>) { !z.Top? && z.color.Black? }

  /** `z` accepts any red-black subtree of black height `h` (a red one only if the
      parent is black). */
  predicate PathValid<V>(z: Path<V>, h: nat)
  {
    z.Top? ||
    (&& RedBlack(z.sib)
     && BlackHeight(z.sib) == h
     && (z.color.Red? ==> !IsRed(z.sib) && BlackTop(z.up))
     && PathValid(z.up, if z.color.Black? then h + 1 else h))
  }

  /** A tree is valid exactly when the subtree and the path around it fit together. */
  lemma {:induction false} ValidPlug<V>(z: Path<V>, t: Tree<V>)
    ensures Valid(Plug(z, t)) <==>
            RedBlack(t) && PathValid(z, BlackHeight(t)) && (IsRed(t) ==> BlackTop(z))
    decreases z
  {
    match z
    case Top =>
    case LeftOf(up, c, v, s) => ValidPlug(up, Node(c, t, v, s));
    case RightOf(up, c, v, s) => ValidPlug(up, Node(c, s, v, t));
  }

  function Blacken<V>(t: Tree<V>): Tree<V>
  {
    if t.Leaf? then t else t.(color := Black)
  }

  lemma BlackenedPlug<V>(z: Path<V>, t: Tree<V>)
    requires RedBlack(t) && PathValid(z, BlackHeight(t))
    requires IsRed(t) ==> z.Top? || BlackTop(z)
    ensures Valid(Blacken(Plug(z, t)))
    ensures Inorder(Blacken(Plug(z, t))) == Around(z, t)
  {
    ValidPlug(z, t);
    InorderPlug(z, t);
  }

  /** A node with `t` on the side `left` says and `s` on the other side. */
  function Fork<V>(left: bool, c: Color, t: Tree<V>, v: V, s: Tree<V>): Tree<V>
  {
    if left then Node(c, t, v, s) else Node(c, s, v, t)
  }

  /** The parent's subtree, with `t` in the hole and the parent coloured `c`. */
  function Parent<V>(z: Path<V>, c: Color, t: Tree<V>): Tree<V>
    requires !z.Top?
  {
    Fork(z.LeftOf?, c, t, z.val, z.sib)
  }

  /** Everything in order, with `t` in the hole. */
  function Around<V>(z: Path<V>, t: Tree<V>): seq<V> { Before(z) + Inorder(t) + After(z) }

  lemma AroundParent<V>(z: Path<V>, c: Color, t: Tree<V>)
    requires !z.Top?
    ensures Around(z.up, Parent(z, c, t)) == Around(z, t)
  {
    if z.LeftOf? {
      assert Inorder(Parent(z, c, t)) == Inorder(t) + [z.val] + Inorder(z.sib);
    } else {
      assert Inorder(Parent(z, c, t)) == Inorder(z.sib) + [z.val] + Inorder(t);
    }
  }

  // ---------- Insertion ----------

  /** The subtree of the grandparent after recolouring (the uncle is red). */
  function InsertRecolor<V>(z: Path<V>, t: Tree<V>): Tree<V>
    requires !z.Top? && !z.up.Top?
  {
    Fork(z.up.LeftOf?, Red, Parent(z, Black, t), z.up.val, Blacken(z.up.sib))
  }

  /** The subtree of the grandparent after the rotations of `rb_insert_color` (the
      uncle is black): the middle one of the three nodes on top, black. */
  function InsertRotate<V>(z: Path<V>, t: Tree<V>): Tree<V>
    requires t.Node? && !z.Top? && !z.up.Top?
  {
    var p, s, g, u := z.val, z.sib, z.up.val, z.up.sib;
    if z.up.LeftOf? then
      if z.LeftOf? then Node(Black, t, p, Node(Red, s, g, u))
      else Node(Black, Node(z.color, s, p, t.left), t.val, Node(Red, t.right, g, u))
    else
      if z.RightOf? then Node(Black, Node(Red, u, g, s), p, t)
      else Node(Black, Node(Red, u, g, t.left), t.val, Node(z.color, t.right, p, s))
  }

  /** A red node under a red parent: the case in which the loop goes on. */
  predicate Clash<V>(z: Path<V>, t: Tree<V>)
  {
    && RedBlack(t) && IsRed(t) && PathValid(z, BlackHeight(t))
    && !z.Top? && z.color.Red?
  }

  lemma InsertRecolorFits<V>(z: Path<V>, t: Tree<V>)
    requires Clash(z, t) && IsRed(z.up.sib)
    ensures var g := InsertRecolor(z, t);
            RedBlack(g) && IsRed(g) && PathValid(z.up.up, BlackHeight(g)) && Around(z.up.up, g) == Around(z, t)
  {
    var p, g := Parent(z, Black, t), InsertRecolor(z, t);
    assert PathValid(z.up, BlackHeight(t));
    assert RedBlack(p) && BlackHeight(p) == BlackHeight(t) + 1;
    assert RedBlack(Blacken(z.up.sib)) && BlackHeight(Blacken(z.up.sib)) == BlackHeight(p);
    assert Inorder(g) == Inorder(Parent(z.up, Black, p));
    AroundParent(z, Black, t);
    AroundParent(z.up, Black, p);
  }

  lemma InsertRotateFits<V>(z: Path<V>, t: Tree<V>)
    requires Clash(z, t) && !IsRed(z.up.sib)
    ensures var g := InsertRotate(z, t);
            RedBlack(g) && !IsRed(g) && PathValid(z.up.up, BlackHeight(g)) && Around(z.up.up, g) == Around(z, t)
  {
    var p, g := Parent(z, Black, t), InsertRotate(z, t);
    assert PathValid(z.up, BlackHeight(t));
    assert RedBlack(t.left) && RedBlack(t.right) && BlackHeight(t.left) == BlackHeight(t.right) == BlackHeight(t);
    assert RedBlack(g.left) && RedBlack(g.right);
    assert BlackHeight(g.left) == BlackHeight(t) == BlackHeight(g.right);
    assert Inorder(g) == Inorder(Parent(z.up, Black, p)) by { InsertRotateOrder(z, t); }
    AroundParent(z, Black, t);
    AroundParent(z.up, Black, p);
  }

  lemma InsertRotateOrder<V>(z: Path<V>, t: Tree<V>)
    requires t.Node? && !z.Top? && !z.up.Top?
    ensures Inorder(InsertRotate(z, t)) == Inorder(Parent(z.up, Black, Parent(z, Black, t)))
  {
    var i, p := InsertRotate(z, t), Parent(z, Black, t);
    var l, n, r, s, u := Inorder(t.left), [t.val], Inorder(t.right), Inorder(z.sib), Inorder(z.up.sib);
    assert Inorder(i) == Inorder(i.left) + [i.val] + Inorder(i.right);
    assert Inorder(t) == l + n + r;
    if z.up.LeftOf? {
      assert Inorder(Parent(z.up, Black, p)) == Inorder(p) + [z.up.val] + u;
      if z.LeftOf? { Regroup(Inorder(t), [z.val], s, [z.up.val], u); }
      else { Regroup7(s, [z.val], l, n, r, [z.up.val], u); }
    } else {
      assert Inorder(Parent(z.up, Black, p)) == u + [z.up.val] + Inorder(p);
      if z.RightOf? { Regroup(u, [z.up.val], s, [z.val], Inorder(t)); }
      else { Regroup7(u, [z.up.val], l, n, r, [z.val], s); }
    }
  }

  /** The lower red node after those rotations; its parent is black now. */
  function InsertRotated<V>(z: Path<V>, t: Tree<V>): (Path<V>, Tree<V>)
    requires t.Node? && !z.Top? && !z.up.Top?
  {
    var g := InsertRotate(z, t);
    if z.up.LeftOf? then (LeftOf(z.up.up, Black, g.val, g.right), g.left)
    else (RightOf(z.up.up, Black, g.val, g.left), g.right)
  }

  lemma InsertRotatedFits<V>(z: Path<V>, t: Tree<V>)
    requires Clash(z, t) && !IsRed(z.up.sib)
    ensures var (w, u) := InsertRotated(z, t);
            && RedBlack(u) && IsRed(u) && PathValid(w, BlackHeight(u)) && BlackTop(w)
            && Plug(w, u) == Plug(z.up.up, InsertRotate(z, t)) && Length(w) < Length(z)
            && Inorder(Plug(w, u)) == Inorder(Plug(z, t))
  {
    InsertRotateFits(z, t);
    InorderPlug(z.up.up, InsertRotate(z, t));
    InorderPlug(z, t);
  }

  /** The loop of `rb_insert_color`, at the node whose subtree is `t`. */
  function InsertFix<V>(z: Path<V>, t: Tree<V>): Tree<V>
    requires RedBlack(t) && IsRed(t) && PathValid(z, BlackHeight(t))
    decreases z
  {
    if z.Top? || z.color.Black? then
      Blacken(Plug(z, t))
    else if IsRed(z.up.sib) then
      InsertRecolorFits(z, t);
      InsertFix(z.up.up, InsertRecolor(z, t))
    else
      Blacken(Plug(z.up.up, InsertRotate(z, t)))
  }

  /** One iteration of the loop. */
  function InsertNext<V>(z: Path<V>, t: Tree<V>): (Path<V>, Tree<V>)
    requires Clash(z, t)
  {
    if IsRed(z.up.sib) then (z.up.up, InsertRecolor(z, t)) else InsertRotated(z, t)
  }

  lemma InsertNextFits<V>(z: Path<V>, t: Tree<V>)
    requires Clash(z, t)
    ensures var (w, u) := InsertNext(z, t);
            && RedBlack(u) && IsRed(u) && PathValid(w, BlackHeight(u)) && Length(w) < Length(z)
            && InsertFix(w, u) == InsertFix(z, t)
  {
    if IsRed(z.up.sib) {
      InsertRecolorFits(z, t);
      assert Length(z) == 1 + Length(z.up);
    } else {
      InsertRotatedFits(z, t);
    }
  }

  /** Inserting restores every red-black condition and keeps the order: the new
      subtree's values stand exactly in the hole. */
  lemma {:induction false} InsertFixCorrect<V>(z: Path<V>, t: Tree<V>)
    requires RedBlack(t) && IsRed(t) && PathValid(z, BlackHeight(t))
    ensures Valid(InsertFix(z, t))
    ensures Inorder(InsertFix(z, t)) == Before(z) + Inorder(t) + After(z)
    decreases z
  {
    if z.Top? || z.color.Black? {
      BlackenedPlug(z, t);
    } else if IsRed(z.up.sib) {
      InsertRecolorFits(z, t);
      InsertFixCorrect(z.up.up, InsertRecolor(z, t));
    } else {
      InsertRotateFits(z, t);
      BlackenedPlug(z.up.up, InsertRotate(z, t));
    }
  }

  // ---------- Erasure ----------

  /** After the red sibling is rotated above the parent, the hole is one deeper: its
      parent is red and its sibling, the old nephew, is black. */
  function RedSibling<V>(z: Path<V>): Path<V>
    requires !z.Top? && z.sib.Node?
  {
    var o := z.sib;
    if z.LeftOf? then LeftOf(LeftOf(z.up, Black, o.val, o.right), Red, z.val, o.left)
    else RightOf(RightOf(z.up, Black, o.val, o.left), Red, z.val, o.right)
  }

  /** The sibling's child away from, respectively next to, the hole. */
  function Far<V>(z: Path<V>): Tree<V>
    requires !z.Top? && z.sib.Node?
  {
    if z.LeftOf? then z.sib.right else z.sib.left
  }

  function Near<V>(z: Path<V>): Tree<V>
    requires !z.Top? && z.sib.Node?
  {
    if z.LeftOf? then z.sib.left else z.sib.right
  }

  /** The parent's subtree once its sibling turned red. */
  function EraseRecolor<V>(z: Path<V>, t: Tree<V>): Tree<V>
    requires !z.Top? && z.sib.Node?
  {
    Fork(z.LeftOf?, z.color, t, z.val, z.sib.(color := Red))
  }

  /** The parent's subtree after the final rotations of `__rb_erase_color`. */
  function EraseRotate<V>(z: Path<V>, t: Tree<V>): Tree<V>
    requires !z.Top? && z.sib.Node? && (IsRed(Far(z)) || IsRed(Near(z)))
  {
    var l, n, f := z.LeftOf?, Near(z), Far(z);
    if IsRed(f) then
      Fork(l, z.color, Fork(l, Black, t, z.val, n), z.sib.val, Blacken(f))
    else if l then
      Node(z.color, Node(Black, t, z.val, n.left), n.val, Node(Black, n.right, z.sib.val, f))
    else
      Node(z.color, Node(Black, f, z.sib.val, n.left), n.val, Node(Black, n.right, z.val, t))
  }

  /** The subtree `t` is black and lacks one black node: the loop goes on. */
  predicate Short<V>(z: Path<V>, t: Tree<V>)
  {
    RedBlack(t) && !IsRed(t) && PathValid(z, BlackHeight(t) + 1) && !z.Top?
  }

  lemma RedSiblingFits<V>(z: Path<V>, t: Tree<V>)
    requires Short(z, t) && IsRed(z.sib)
    ensures Short(RedSibling(z), t) && !IsRed(RedSibling(z).sib)
    ensures Around(RedSibling(z), t) == Around(z, t)
  {
    var o, w := z.sib, RedSibling(z);
    assert RedBlack(o.left) && RedBlack(o.right);
    assert PathValid(w.up, BlackHeight(t) + 1);
    RedSiblingOrder(z, t);
  }

  lemma RedSiblingOrder<V>(z: Path<V>, t: Tree<V>)
    requires !z.Top? && z.sib.Node?
    ensures Around(RedSibling(z), t) == Around(z, t)
  {
    var o, w := z.sib, RedSibling(z);
    if z.LeftOf? {
      assert After(w) == [z.val] + Inorder(o.left) + ([o.val] + Inorder(o.right) + After(z.up));
      assert After(w) == After(z);
      assert Before(w.up) == Before(z.up);
    } else {
      assert Before(w) == Before(z.up) + Inorder(o.left) + [o.val] + Inorder(o.right) + [z.val];
      assert Before(w) == Before(z);
      assert After(w.up) == After(z.up);
    }
  }

  lemma EraseRecolorFits<V>(z: Path<V>, t: Tree<V>)
    requires Short(z, t) && !IsRed(z.sib) && !IsRed(Near(z)) && !IsRed(Far(z))
    ensures var p := EraseRecolor(z, t);
            && RedBlack(Blacken(p)) && PathValid(z.up, BlackHeight(p) + 1)
            && (IsRed(p) <==> z.color.Red?) && Around(z.up, p) == Around(z, t)
  {
    var s := z.sib.(color := Red);
    assert RedBlack(s) && BlackHeight(s) == BlackHeight(t);
    assert Inorder(EraseRecolor(z, t)) == Inorder(Parent(z, z.color, t));
    AroundParent(z, z.color, t);
  }

  lemma EraseRotateFits<V>(z: Path<V>, t: Tree<V>)
    requires Short(z, t) && !IsRed(z.sib) && (IsRed(Near(z)) || IsRed(Far(z)))
    ensures var p := EraseRotate(z, t);
            && RedBlack(p) && PathValid(z.up, BlackHeight(p)) && (IsRed(p) ==> BlackTop(z.up))
            && Around(z.up, p) == Around(z, t)
  {
    var p, n, f := EraseRotate(z, t), Near(z), Far(z);
    assert RedBlack(n) && RedBlack(f) && BlackHeight(n) == BlackHeight(f) == BlackHeight(t);
    if !IsRed(f) {
      assert RedBlack(n.left) && RedBlack(n.right);
    }
    assert RedBlack(p.left) && RedBlack(p.right) && BlackHeight(p.left) == BlackHeight(p.right) == BlackHeight(t) + 1;
    assert Inorder(p) == Inorder(Parent(z, z.color, t)) by { EraseRotateOrder(z, t); }
    AroundParent(z, z.color, t);
  }

  lemma EraseRotateOrder<V>(z: Path<V>, t: Tree<V>)
    requires !z.Top? && z.sib.Node? && (IsRed(Far(z)) || IsRed(Near(z)))
    ensures Inorder(EraseRotate(z, t)) == Inorder(Parent(z, z.color, t))
  {
    var e, n := EraseRotate(z, t), Near(z);
    assert Inorder(Parent(z, z.color, t)) ==
           if z.LeftOf? then Inorder(t) + [z.val] + Inorder(z.sib) else Inorder(z.sib) + [z.val] + Inorder(t);
    assert Inorder(e) == Inorder(e.left) + [e.val] + Inorder(e.right);
    if IsRed(Far(z)) {
      if z.LeftOf? { Regroup(Inorder(t), [z.val], Inorder(n), [e.val], Inorder(e.right)); }
      else { Regroup(Inorder(e.left), [e.val], Inorder(n), [z.val], Inorder(t)); }
    } else {
      assert Inorder(n) == Inorder(n.left) + [n.val] + Inorder(n.right);
      var l, r := Inorder(n.left), Inorder(n.right);
      if z.LeftOf? { Regroup7(Inorder(t), [z.val], l, [n.val], r, [z.sib.val], Inorder(Far(z))); }
      else { Regroup7(Inorder(Far(z)), [z.sib.val], l, [n.val], r, [z.val], Inorder(t)); }
    }
  }

  lemma Regroup<V>(a: seq<V>, b: seq<V>, c: seq<V>, d: seq<V>, e: seq<V>)
    ensures (a + b + c) + d + e == a + b + (c + d + e)
  {
  }

  lemma Regroup7<V>(a: seq<V>, b: seq<V>, c: seq<V>, d: seq<V>, e: seq<V>, f: seq<V>, g: seq<V>)
    ensures (a + b + c) + d + (e + f + g) == a + b + ((c + d + e) + f + g)
    ensures (a + b + c) + d + (e + f + g) == (a + b + (c + d + e)) + f + g
  {
  }

  function Length<V>(z: Path<V>): nat { if z.Top? then 0 else 1 + Length(z.up) }

  /** The path on which the rest of one loop iteration works. */
  function BlackSibling<V>(z: Path<V>, t: Tree<V>): (w: Path<V>)
    requires Short(z, t)
    ensures Short(w, t) && !IsRed(w.sib) && w.sib.Node?
    ensures IsRed(z.sib) ==> w.color.Red?
  {
    if IsRed(z.sib) then RedSiblingFits(z, t); RedSibling(z) else z
  }

  /** The loop of `__rb_erase_color`: the subtree `t` lacks one black node.  A red
      sibling lengthens the path, but then the next subtree is red and the loop ends. */
  function EraseFix<V>(z: Path<V>, t: Tree<V>): Tree<V>
    requires RedBlack(Blacken(t)) && PathValid(z, BlackHeight(t) + 1)
    decreases Length(z) + if IsRed(t) then 0 else 1
  {
    if IsRed(t) || z.Top? then
      Plug(z, Blacken(t))
    else
      var w := BlackSibling(z, t);
      if !IsRed(Near(w)) && !IsRed(Far(w)) then
        EraseRecolorFits(w, t);
        EraseFix(w.up, EraseRecolor(w, t))
      else
        Blacken(Plug(w.up, EraseRotate(w, t)))
  }

  predicate EraseDone<V>(z: Path<V>, t: Tree<V>)
    requires Short(z, t)
  {
    var w := BlackSibling(z, t);
    IsRed(Near(w)) || IsRed(Far(w))
  }

  /** One iteration of the loop. */
  function EraseNext<V>(z: Path<V>, t: Tree<V>): (Path<V>, Tree<V>)
    requires Short(z, t)
  {
    var w := BlackSibling(z, t);
    (w.up, if EraseDone(z, t) then EraseRotate(w, t) else EraseRecolor(w, t))
  }

  lemma EraseNextFits<V>(z: Path<V>, t: Tree<V>)
    requires Short(z, t)
    ensures var (w, p) := EraseNext(z, t);
            p.Node? && if EraseDone(z, t) then EraseFix(z, t) == Blacken(Plug(w, p))
            else && RedBlack(Blacken(p)) && PathValid(w, BlackHeight(p) + 1)
                 && EraseFix(w, p) == EraseFix(z, t)
                 && Length(w) + (if IsRed(p) then 0 else 1) < Length(z) + (if IsRed(t) then 0 else 1)
  {
    if !EraseDone(z, t) {
      EraseRecolorFits(BlackSibling(z, t), t);
    }
  }

  lemma {:induction false} EraseFixCorrect<V>(z: Path<V>, t: Tree<V>)
    requires RedBlack(Blacken(t)) && PathValid(z, BlackHeight(t) + 1)
    ensures Valid(EraseFix(z, t))
    ensures Inorder(EraseFix(z, t)) == Around(z, t)
    decreases Length(z) + if IsRed(t) then 0 else 1
  {
    hide Around, RedBlack, PathValid;
    if IsRed(t) || z.Top? {
      EraseEnd(z, t);
    } else {
      if IsRed(z.sib) { RedSiblingFits(z, t); }
      var w := BlackSibling(z, t);
      if !IsRed(Near(w)) && !IsRed(Far(w)) {
        EraseRecolorFits(w, t);
        EraseFixCorrect(w.up, EraseRecolor(w, t));
      } else {
        EraseRotateFits(w, t);
        BlackenedPlug(w.up, EraseRotate(w, t));
      }
    }
  }

  lemma EraseEnd<V>(z: Path<V>, t: Tree<V>)
    requires RedBlack(Blacken(t)) && PathValid(z, BlackHeight(t) + 1) && (IsRed(t) || z.Top?)
    ensures Valid(Plug(z, Blacken(t))) && Inorder(Plug(z, Blacken(t))) == Around(z, t)
  {
    ValidPlug(z, Blacken(t));
    InorderPlug(z, Blacken(t));
  }

  /** The leftmost node of `t`, below `z`: the successor that `rb_erase` looks for. */
  function MinPath<V>(z: Path<V>, t: Tree<V>): Path<V>
    requires t.Node?
    decreases t
  {
    if t.left.Leaf? then z else MinPath(LeftOf(z, t.color, t.val, t.right), t.left)
  }

  function MinTree<V>(t: Tree<V>): (m: Tree<V>)
    requires t.Node?
    ensures m.Node? && m.left.Leaf?
  {
    if t.left.Leaf? then t else MinTree(t.left)
  }

  lemma {:induction false} MinIsFirst<V>(z: Path<V>, t: Tree<V>)
    requires t.Node?
    ensures Plug(MinPath(z, t), MinTree(t)) == Plug(z, t)
    ensures Before(MinPath(z, t)) == Before(z)
    ensures Inorder(t) + After(z) == Inorder(MinTree(t)) + After(MinPath(z, t))
    decreases t
  {
    if t.left.Leaf? {
    } else {
      var w := LeftOf(z, t.color, t.val, t.right);
      MinIsFirst(w, t.left);
      assert Inorder(t) + After(z) == Inorder(t.left) + After(w);
    }
  }

  /** A short path stays valid under a changed value at its end. */
  lemma {:induction false} MinPathValid<V>(z: Path<V>, t: Tree<V>)
    requires t.Node? && RedBlack(t) && PathValid(z, BlackHeight(t)) && (IsRed(t) ==> BlackTop(z))
    ensures var m := MinTree(t);
            RedBlack(m) && PathValid(MinPath(z, t), BlackHeight(m)) && (IsRed(m) ==> BlackTop(MinPath(z, t)))
    decreases t
  {
    if t.left.Leaf? {
    } else {
      MinPathValid(LeftOf(z, t.color, t.val, t.right), t.left);
    }
  }

  /** Where `rb_erase` takes a node out, with what it leaves there, and the colour
      that is missing: the node itself, or its successor, which then stands in the
      node's place. */
  function Unlinked<V>(z: Path<V>, t: Tree<V>): (Path<V>, Tree<V>, Color)
    requires t.Node?
  {
    if t.left.Leaf? then (z, t.right, t.color)
    else if t.right.Leaf? then (z, t.left, t.color)
    else
      var m := MinTree(t.right);
      (MinPath(RightOf(z, t.color, m.val, t.left), t.right), m.right, m.color)
  }

  /** `rb_erase` at the node whose subtree is `t`. */
  function Erase<V>(z: Path<V>, t: Tree<V>): Tree<V>
    requires t.Node? && Valid(Plug(z, t))
  {
    var (w, c, color) := Unlinked(z, t);
    UnlinkedFits(z, t);
    if color.Black? then EraseFix(w, c) else Plug(w, c)
  }

  lemma UnlinkedFits<V>(z: Path<V>, t: Tree<V>)
    requires t.Node? && Valid(Plug(z, t))
    ensures var (w, c, color) := Unlinked(z, t);
            && RedBlack(c) && RedBlack(Blacken(c)) && PathValid(w, BlackHeight(c) + if color.Black? then 1 else 0)
            && (color.Red? ==> BlackTop(w) && !IsRed(c))
  {
    ValidPlug(z, t);
    if t.left.Node? && t.right.Node? {
      MinPathValid(RightOf(z, t.color, MinTree(t.right).val, t.left), t.right);
    }
  }

  /** Unlinking takes exactly the node's value out of the order. */
  lemma UnlinkedOrder<V>(z: Path<V>, t: Tree<V>)
    requires t.Node?
    ensures var (w, c, _) := Unlinked(z, t);
            Around(w, c) == Others(z, t)
  {
    if t.left.Node? && t.right.Node? {
      var m := MinTree(t.right);
      var y := RightOf(z, t.color, m.val, t.left);
      var w := MinPath(y, t.right);
      MinIsFirst(y, t.right);
      assert Inorder(m) == [m.val] + Inorder(m.right);
      Resplice(Before(z) + Inorder(t.left), [m.val], Inorder(m.right), After(w), Inorder(t.right), After(z));
    } else if t.left.Leaf? {
      assert Before(z) + Inorder(t.left) == Before(z);
    } else {
      assert Before(z) + Inorder(t.left) + Inorder(t.right) == Before(z) + Inorder(t.left);
    }
  }

  lemma Resplice<V>(a: seq<V>, b: seq<V>, c: seq<V>, d: seq<V>, e: seq<V>, f: seq<V>)
    requires e + f == (b + c) + d
    ensures (a + b) + c + d == a + e + f
  {
    assert a + (e + f) == a + e + f;
    assert a + ((b + c) + d) == (a + b) + c + d;
  }

  /** Everything in order but the focused node itself. */
  function Others<V>(z: Path<V>, t: Tree<V>): seq<V>
    requires t.Node?
  {
    Before(z) + Inorder(t.left) + Inorder(t.right) + After(z)
  }

  lemma PlugSplits<V>(z: Path<V>, t: Tree<V>)
    requires t.Node?
    ensures Inorder(Plug(z, t)) == Before(z) + Inorder(t.left) + [t.val] + Inorder(t.right) + After(z)
  {
    InorderPlug(z, t);
    Flatten(Before(z), Inorder(t.left), [t.val], Inorder(t.right));
  }

  lemma Flatten<V>(a: seq<V>, b: seq<V>, c: seq<V>, d: seq<V>)
    ensures a + (b + c + d) == a + b + c + d
  {
  }

  /** Erasing any node of any valid tree gives a valid tree with exactly that node
      gone from the order. */
  lemma EraseCorrect<V>(z: Path<V>, t: Tree<V>)
    requires t.Node? && Valid(Plug(z, t))
    ensures Valid(Erase(z, t))
    ensures Inorder(Plug(z, t)) == Before(z) + Inorder(t.left) + [t.val] + Inorder(t.right) + After(z)
    ensures Inorder(Erase(z, t)) == Before(z) + Inorder(t.left) + Inorder(t.right) + After(z)
  {
    hide EraseFix, Unlinked, Plug, RedBlack, PathValid, Around, Inorder, Before, After;
    PlugSplits(z, t);
    UnlinkedFits(z, t);
    UnlinkedOrder(z, t);
    var (w, c, color) := Unlinked(z, t);
    if color.Black? {
      EraseFixCorrect(w, c);
    } else {
      PlugKeeps(w, c);
    }
  }

  lemma PlugKeeps<V>(z: Path<V>, t: Tree<V>)
    requires RedBlack(t) && PathValid(z, BlackHeight(t)) && (IsRed(t) ==> BlackTop(z))
    ensures Valid(Plug(z, t)) && Inorder(Plug(z, t)) == Around(z, t)
  {
    ValidPlug(z, t);
    InorderPlug(z, t);
  }

  // ---------- Height ----------

  function Height<V>(t: Tree<V>): nat
  {
    match t
    case Leaf => 0
    case Node(_, l, _, r) => 1 + if Height(l) >= Height(r) then Height(l) else Height(r)
  }

  function Pow2(n: nat): nat { if n == 0 then 1 else 2 * Pow2(n - 1) }

  lemma {:induction false} Pow2Monotone(m: nat, n: nat)
    requires m <= n
    ensures Pow2(m) <= Pow2(n)
    decreases n - m
  {
    if m < n { Pow2Monotone(m + 1, n); }
  }

  lemma {:induction false} Pow2Double(n: nat)
    ensures Pow2(2 * n) == Pow2(n) * Pow2(n)
  {
    if n > 0 {
      Pow2Double(n - 1);
      assert Pow2(2 * n) == 2 * Pow2(2 * n - 1) == 4 * Pow2(2 * (n - 1));
    }
  }

  lemma {:induction false} BlackHeightBounds<V>(t: Tree<V>)
    requires RedBlack(t)
    ensures Pow2(BlackHeight(t)) <= |Inorder(t)| + 1
    ensures Height(t) <= 2 * BlackHeight(t) + if IsRed(t) then 1 else 0
  {
    if t.Node? {
      BlackHeightBounds(t.left);
      BlackHeightBounds(t.right);
    }
  }

  /** `height <= 2 * log2(n + 1)`, without logarithms. */
  lemma HeightBound<V>(t: Tree<V>)
    requires Valid(t)
    ensures Pow2(Height(t)) <= (|Inorder(t)| + 1) * (|Inorder(t)| + 1)
  {
    BlackHeightBounds(t);
    Pow2Monotone(Height(t), 2 * BlackHeight(t));
    Pow2Double(BlackHeight(t));
    Squares(Pow2(BlackHeight(t)), |Inorder(t)| + 1);
  }

  lemma Squares(b: nat, n: nat)
    requires b <= n
    ensures b * b <= n * n
  {
    assert b * b <= b * n <= n * n;
  }
}
