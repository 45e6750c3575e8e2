/** `server/util/rbtree.c` and `rbtree.h` over node objects: link, rotations, the two fix-up loops,
    erase, and in-order traversal.

    Every method is told, in ghost parameters, which tree the pointers spell out before the call,
    and says which tree they spell out afterwards. */
module RbTree {
  import opened RbTreeModel
  import opened Sequences

  class Root {
    var node: Node?
    /** The tree hanging from this root. */
    ghost var tree: Tree

    constructor ()
      ensures Valid() && tree == Leaf
    {
      node, tree := null, Leaf;
    }

    ghost predicate Holds(t: Tree)
      reads this, Nodes(t)
    {
      node == RootOf(t) && Distinct(t) && Linked(t, null, Snap(Nodes(t)))
    }

    /** A red-black tree: consistent links, black root, no red-red edge, equal black heights. */
    ghost predicate Valid()
      reads this, Nodes(tree)
    {
      Holds(tree) && IsRedBlack(tree)
    }
  }

  ghost function All(c: Ctx, t: Tree): set<Node> {
    CtxNodes(c) + Nodes(t)
  }

  /** A tree split at a hole, and the cells that spell out both parts. */
  ghost predicate Split(top: Node?, c: Ctx, t: Tree, h: Cells) {
    Apart(c, t) && CtxLinked(c, RootOf(t), null, top, h) && Linked(t, Parent(c, null), h)
  }

  lemma {:induction false} SplitPlug(top: Node?, c: Ctx, t: Tree, h: Cells)
    ensures Split(top, c, t, h)
       <==> Linked(Plug(c, t), null, h) && RootOf(Plug(c, t)) == top && Distinct(Plug(c, t))
    ensures Nodes(Plug(c, t)) == All(c, t)
  {
    LinkedPlug(c, t, null, top, h);
    DistinctPlug(c, t);
    NodesPlug(c, t);
  }

  lemma {:induction false} HoldsFromSplit(root: Root, c: Ctx, t: Tree, S: set<Node>)
    requires Split(root.node, c, t, Snap(S)) && Nodes(Plug(c, t)) <= S
    ensures root.Holds(Plug(c, t))
  {
    SplitPlug(root.node, c, t, Snap(S));
    LinkedFrame(Plug(c, t), null, Snap(S), Snap(Nodes(Plug(c, t))));
  }

  lemma {:induction false} SplitFromHolds(root: Root, c: Ctx, t: Tree)
    requires root.Holds(Plug(c, t))
    ensures Split(root.node, c, t, Snap(Nodes(Plug(c, t))))
    ensures Nodes(Plug(c, t)) == All(c, t)
  {
    SplitPlug(root.node, c, t, Snap(Nodes(Plug(c, t))));
  }

  // ---- Field assignments (rbtree.h:128-145) ------------------------------------------------

  method SetParent(n: Node, p: Node?, ghost S: set<Node>)
    requires n in S
    modifies n`parent
    ensures Snap(S) == old(Snap(S))[n := old(Snap(S))[n].(parent := p)]
  {
    n.parent := p;
  }

  method SetColor(n: Node, c: Color, ghost S: set<Node>)
    requires n in S
    modifies n`color
    ensures Snap(S) == old(Snap(S))[n := old(Snap(S))[n].(color := c)]
  {
    n.color := c;
  }

  method SetLeft(n: Node, m: Node?, ghost S: set<Node>)
    requires n in S
    modifies n`left
    ensures n.left == m && Snap(S) == old(Snap(S))[n := old(Snap(S))[n].(left := m)]
  {
    n.left := m;
  }

  method SetRight(n: Node, m: Node?, ghost S: set<Node>)
    requires n in S
    modifies n`right
    ensures n.right == m && Snap(S) == old(Snap(S))[n := old(Snap(S))[n].(right := m)]
  {
    n.right := m;
  }

  // ---- Rotations (rbtree.c:30-74) ----------------------------------------------------------

  ghost function RotatedLeft(t: Tree): Tree
    requires t.T? && t.right.T?
  {
    T(T(t.left, t.node, t.color, t.right.left), t.right.node, t.right.color, t.right.right)
  }

  ghost function RotatedRight(t: Tree): Tree
    requires t.T? && t.left.T?
  {
    T(t.left.left, t.left.node, t.left.color, T(t.left.right, t.node, t.color, t.right))
  }

  /** Joining two distinct trees at a node in neither. */
  lemma {:induction false} JoinDistinct(l: Tree, n: Node, col: Color, r: Tree)
    requires Distinct(l) && Distinct(r) && n !in Nodes(l) && n !in Nodes(r) && Nodes(l) !! Nodes(r)
    ensures Distinct(T(l, n, col, r))
  {}

  lemma {:induction false} RotatedLeftDistinct(t: Tree)
    requires t.T? && t.right.T? && Distinct(t)
    ensures Distinct(RotatedLeft(t))
  {
    var y := t.right;
    assert y.node in Nodes(y) && Nodes(y.left) <= Nodes(y) && Nodes(y.right) <= Nodes(y);
    JoinDistinct(t.left, t.node, t.color, y.left);
    JoinDistinct(T(t.left, t.node, t.color, y.left), y.node, y.color, y.right);
  }

  lemma {:induction false} RotatedRightDistinct(t: Tree)
    requires t.T? && t.left.T? && Distinct(t)
    ensures Distinct(RotatedRight(t))
  {
    var y := t.left;
    assert y.node in Nodes(y) && Nodes(y.left) <= Nodes(y) && Nodes(y.right) <= Nodes(y);
    JoinDistinct(y.right, t.node, t.color, t.right);
    JoinDistinct(y.left, y.node, y.color, T(y.right, t.node, t.color, t.right));
  }

  lemma {:induction false} RotatedLeftNodes(t: Tree)
    requires t.T? && t.right.T?
    ensures Nodes(RotatedLeft(t)) == Nodes(t)
  {}

  lemma {:induction false} RotatedRightNodes(t: Tree)
    requires t.T? && t.left.T?
    ensures Nodes(RotatedRight(t)) == Nodes(t)
  {}

  /** Rotation moves no node in the in-order sequence, and the two rotations undo each other. */
  lemma {:induction false} RotatedLeftKeeps(t: Tree)
    requires t.T? && t.right.T?
    ensures InOrder(RotatedLeft(t)) == InOrder(t)
    ensures Nodes(RotatedLeft(t)) == Nodes(t)
    ensures RotatedRight(RotatedLeft(t)) == t
  {
    hide Nodes;
    var a, x, b, y, d := InOrder(t.left), [t.node], InOrder(t.right.left), [t.right.node], InOrder(t.right.right);
    AssocFour(a + x, b, y, d);
    RotatedLeftNodes(t);
  }

  lemma {:induction false} RotatedRightKeeps(t: Tree)
    requires t.T? && t.left.T?
    ensures InOrder(RotatedRight(t)) == InOrder(t)
    ensures Nodes(RotatedRight(t)) == Nodes(t)
    ensures RotatedLeft(RotatedRight(t)) == t
  {
    hide Nodes;
    var a, y, b, x, d := InOrder(t.left.left), [t.left.node], InOrder(t.left.right), [t.node], InOrder(t.right);
    AssocFour(a + y, b, x, d);
    RotatedRightNodes(t);
  }

  /** The cells after the link of the context at its hole is made to point at `other`. */
  ghost function Relinked(c: Ctx, other: Node?, h: Cells): (h': Cells)
    requires !c.Top? ==> c.node in h
    ensures h'.Keys == h.Keys
  {
    match c
    case Top => h
    case InL(_, n, _, _) => h[n := h[n].(left := other)]
    case InR(_, _, n, _) => h[n := h[n].(right := other)]
  }

  lemma RelinkedLinks(c: Ctx, hole: Node?, other: Node?, p: Node?, top: Node?, h: Cells)
    requires CtxLinked(c, hole, p, top, h) && CtxDistinct(c)
    ensures CtxLinked(c, other, p, if c.Top? then other else top, Relinked(c, other, h))
  {
    var h' := Relinked(c, other, h);
    match c
    case Top =>
    case InL(up, n, _, r) =>
      LinkedFrame(r, n, h, h');
      CtxLinkedFrame(up, n, p, top, h, h');
    case InR(up, l, n, _) =>
      LinkedFrame(l, n, h, h');
      CtxLinkedFrame(up, n, p, top, h, h');
  }

  /** The left link of the node above the hole tells whether the hole is a left one. */
  lemma {:induction false} HoleSide(top: Node?, c: Ctx, t: Tree, h: Cells)
    requires Split(top, c, t, h) && !c.Top? && t.T?
    ensures c.node in h && c.node in CtxNodes(c) && c.node !in Nodes(t)
    ensures h[c.node].left == t.node <==> c.InL?
  {
    if c.InR? && c.left.T? { assert c.left.node in CtxNodes(c); }
  }

  /** The link of `parent` (or of the root) that points at `child` is made to point at `other`. */
  method Redirect(parent: Node?, child: Node, other: Node?, root: Root, ghost c: Ctx, ghost S: set<Node>)
    requires parent == Parent(c, null)
    requires !c.Top? ==> c.node in S && (c.node.left == child <==> c.InL?)
    modifies root`node, S`left, S`right
    ensures Snap(S) == Relinked(c, other, old(Snap(S)))
    ensures c.Top? ==> root.node == other
    ensures !c.Top? ==> root.node == old(root.node)
  {
    if parent != null {
      if child == parent.left {
        SetLeft(parent, other, S);
      } else {
        SetRight(parent, other, S);
      }
    } else {
      root.node := other;
    }
  }

  /** The cell of the root of a tree hanging below `p`. */
  ghost function CellOf(t: Tree, p: Node?): Cell
    requires t.T?
  {
    Cell(p, t.color, RootOf(t.right), RootOf(t.left))
  }

  ghost function Hung(t: Tree, p: Node?, h: Cells): Cells {
    if t.T? then h[t.node := CellOf(t, p)] else h
  }

  /** Hanging a tree elsewhere rewrites only the parent field of its root. */
  lemma {:induction false} HungLinks(t: Tree, p: Node?, q: Node?, h: Cells)
    requires Linked(t, p, h) && Distinct(t)
    ensures Linked(t, q, Hung(t, q, h))
  {
    if t.T? {
      LinkedFrame(t.left, t.node, h, Hung(t, q, h));
      LinkedFrame(t.right, t.node, h, Hung(t, q, h));
    }
  }

  /** The cells after a left rotation at the root of `t`. */
  ghost function LeftTurned(c: Ctx, t: Tree, h: Cells): Cells
    requires t.T? && t.right.T? && (!c.Top? ==> c.node in h)
  {
    var u := RotatedLeft(t);
    Hung(u.left.right, t.node, Relinked(c, u.node, h))
      [t.node := CellOf(u.left, u.node)][u.node := CellOf(u, Parent(c, null))]
  }

  lemma LeftTurnedLinks(top: Node?, c: Ctx, t: Tree, h: Cells)
    requires t.T? && t.right.T? && Split(top, c, t, h)
    ensures Split(if c.Top? then t.right.node else top, c, RotatedLeft(t), LeftTurned(c, t, h))
  {
    var x, a, y := t.node, t.left, t.right.node;
    var b, d := t.right.left, t.right.right;
    var h' := LeftTurned(c, t, h);
    RotatedLeftKeeps(t);
    RotatedLeftDistinct(t);
    assert Linked(t.right, x, h) && Distinct(t.right);
    assert Nodes(a) <= Nodes(t) && Nodes(t.right) <= Nodes(t) && Nodes(b) <= Nodes(t.right) &&
           Nodes(d) <= Nodes(t.right);
    assert y in Nodes(t.right) && x !in Nodes(t.right) && Nodes(a) !! Nodes(t.right);
    assert Linked(a, x, h') by { LinkedFrame(a, x, h, h'); }
    assert Linked(d, y, h') by { LinkedFrame(d, y, h, h'); }
    assert Linked(b, x, h') by { HungLinks(b, y, x, h); LinkedFrame(b, x, Hung(b, x, h), h'); }
    RelinkedLinks(c, x, y, null, top, h);
    CtxLinkedFrame(c, y, null, if c.Top? then y else top, Relinked(c, y, h), h');
  }

  /** The cells after a right rotation at the root of `t`. */
  ghost function RightTurned(c: Ctx, t: Tree, h: Cells): Cells
    requires t.T? && t.left.T? && (!c.Top? ==> c.node in h)
  {
    var u := RotatedRight(t);
    Hung(u.right.left, t.node, Relinked(c, u.node, h))
      [t.node := CellOf(u.right, u.node)][u.node := CellOf(u, Parent(c, null))]
  }

  lemma RightTurnedLinks(top: Node?, c: Ctx, t: Tree, h: Cells)
    requires t.T? && t.left.T? && Split(top, c, t, h)
    ensures Split(if c.Top? then t.left.node else top, c, RotatedRight(t), RightTurned(c, t, h))
  {
    var x, a, y := t.node, t.right, t.left.node;
    var b, d := t.left.right, t.left.left;
    var h' := RightTurned(c, t, h);
    RotatedRightKeeps(t);
    RotatedRightDistinct(t);
    assert Linked(t.left, x, h) && Distinct(t.left);
    assert Nodes(a) <= Nodes(t) && Nodes(t.left) <= Nodes(t) && Nodes(b) <= Nodes(t.left) && Nodes(d) <= Nodes(t.left);
    assert y in Nodes(t.left) && x !in Nodes(t.left) && Nodes(a) !! Nodes(t.left);
    assert Linked(a, x, h') by { LinkedFrame(a, x, h, h'); }
    assert Linked(d, y, h') by { LinkedFrame(d, y, h, h'); }
    assert Linked(b, x, h') by { HungLinks(b, y, x, h); LinkedFrame(b, x, Hung(b, x, h), h'); }
    RelinkedLinks(c, x, y, null, top, h);
    CtxLinkedFrame(c, y, null, if c.Top? then y else top, Relinked(c, y, h), h');
  }

  /** Replacing the tree at a hole by one with the same nodes in the same order. */
  lemma {:induction false} SwapInPlug(c: Ctx, t: Tree, u: Tree)
    requires Nodes(t) == Nodes(u) && InOrder(t) == InOrder(u)
    ensures Nodes(Plug(c, t)) == Nodes(Plug(c, u)) && InOrder(Plug(c, t)) == InOrder(Plug(c, u))
  {
    NodesPlug(c, t);
    NodesPlug(c, u);
    InOrderPlug(c, t);
    InOrderPlug(c, u);
  }

  /** The six assignments of a left rotation, in the order of the code. */
  ghost function LeftSteps(c: Ctx, x: Node, y: Node, b: Node?, h: Cells): Cells
    requires x in h && y in h && (b != null ==> b in h) && (!c.Top? ==> c.node in h)
  {
    var h1 := h[x := h[x].(right := b)];
    var h2 := if b != null then h1[b := h1[b].(parent := x)] else h1;
    var h3 := h2[y := h2[y].(left := x)];
    var h4 := h3[y := h3[y].(parent := Parent(c, null))];
    var h5 := Relinked(c, y, h4);
    h5[x := h5[x].(parent := y)]
  }

  lemma LeftStepsTurn(top: Node?, c: Ctx, t: Tree, h: Cells)
    requires t.T? && t.right.T? && Split(top, c, t, h)
    ensures t.node in h && h[t.node] == CellOf(t, Parent(c, null))
    ensures t.right.node in h && h[t.right.node] == CellOf(t.right, t.node) && t.right.node != t.node
    ensures t.right.left.T? ==> t.right.left.node in h && t.right.left.node != t.right.node
    ensures !c.Top? ==> c.node in h && (h[c.node].left == t.node <==> c.InL?)
    ensures !c.Top? ==> c.node != t.node && c.node != t.right.node && c.node != RootOf(t.right.left)
    ensures LeftSteps(c, t.node, t.right.node, RootOf(t.right.left), h) == LeftTurned(c, t, h)
  {
    var x, y, b := t.node, t.right.node, t.right.left;
    assert Linked(t.right, x, h) && Linked(b, y, h) && Distinct(t.right);
    assert y in Nodes(t.right) && x != y && (b.T? ==> b.node in Nodes(b) && b.node != y && b.node != x);
    if !c.Top? { HoleSide(top, c, t, h); assert c.node != x && c.node != y && c.node != RootOf(b); }
    assert h[x] == CellOf(t, Parent(c, null)) && h[y] == CellOf(t.right, x);
    assert b.T? ==> h[b.node] == CellOf(b, y);
  }

  lemma {:induction false} LeftRotation(top: Node?, c: Ctx, t: Tree, h: Cells)
    requires t.T? && t.right.T? && Split(top, c, t, h)
    ensures t.node in h && h[t.node] == CellOf(t, Parent(c, null))
    ensures t.right.node in h && h[t.right.node] == CellOf(t.right, t.node) && t.right.node != t.node
    ensures t.right.left.T? ==> t.right.left.node in h && t.right.left.node != t.right.node
    ensures !c.Top? ==> c.node in h && (h[c.node].left == t.node <==> c.InL?)
    ensures !c.Top? ==> c.node != t.node && c.node != t.right.node && c.node != RootOf(t.right.left)
    ensures Split(if c.Top? then t.right.node else top, c, RotatedLeft(t),
                  LeftSteps(c, t.node, t.right.node, RootOf(t.right.left), h))
    ensures InOrder(Plug(c, RotatedLeft(t))) == InOrder(Plug(c, t))
    ensures Nodes(Plug(c, RotatedLeft(t))) == Nodes(Plug(c, t))
  {
    LeftStepsTurn(top, c, t, h);
    LeftTurnedLinks(top, c, t, h);
    RotatedLeftKeeps(t);
    SwapInPlug(c, t, RotatedLeft(t));
  }

  /** The code of the left rotation, as six field assignments; `c` only tells where `node` hangs. */
  method RotateLeft(node: Node, root: Root, ghost c: Ctx, ghost S: set<Node>)
    requires node.right != null && node in S && node.right in S && node != node.right
    requires node.right.left != null ==> node.right.left in S && node.right.left != node.right
    requires node.parent == Parent(c, null)
    requires !c.Top? ==> c.node in S && (c.node.left == node <==> c.InL?)
                         && c.node != node && c.node != node.right && c.node != node.right.left
    modifies root`node, S`left, S`right, S`parent
    ensures Snap(S) == old(LeftSteps(c, node, node.right, node.right.left, Snap(S)))
    ensures c.Top? ==> root.node == old(node.right)
    ensures !c.Top? ==> root.node == old(root.node)
  {
    var right := node.right;
    var parent := node.parent;
    SetRight(node, right.left, S);
    if node.right != null {
      SetParent(right.left, node, S);
    }
    SetLeft(right, node, S);
    SetParent(right, parent, S);
    Redirect(parent, node, right, root, c, S);
    SetParent(node, right, S);
  }

  /** Rotation at the root of `t`, wherever `t` hangs. */
  method RotateLeftAt(node: Node, root: Root, ghost c: Ctx, ghost t: Tree)
    requires t.T? && t.right.T? && t.node == node && root.Holds(Plug(c, t))
    modifies root`node, Nodes(Plug(c, t))`left, Nodes(Plug(c, t))`right, Nodes(Plug(c, t))`parent
    ensures root.Holds(Plug(c, RotatedLeft(t)))
    ensures InOrder(Plug(c, RotatedLeft(t))) == InOrder(Plug(c, t))
    ensures Nodes(Plug(c, RotatedLeft(t))) == Nodes(Plug(c, t))
  {
    ghost var S := Nodes(Plug(c, t));
    ghost var h := Snap(S);
    SplitFromHolds(root, c, t);
    LeftRotation(root.node, c, t, h);
    assert node.right == t.right.node && node.right.left == RootOf(t.right.left);
    RotateLeft(node, root, c, S);
    HoldsFromSplit(root, c, RotatedLeft(t), S);
  }

  /** The six assignments of a right rotation, in the order of the code. */
  ghost function RightSteps(c: Ctx, x: Node, y: Node, b: Node?, h: Cells): Cells
    requires x in h && y in h && (b != null ==> b in h) && (!c.Top? ==> c.node in h)
  {
    var h1 := h[x := h[x].(left := b)];
    var h2 := if b != null then h1[b := h1[b].(parent := x)] else h1;
    var h3 := h2[y := h2[y].(right := x)];
    var h4 := h3[y := h3[y].(parent := Parent(c, null))];
    var h5 := Relinked(c, y, h4);
    h5[x := h5[x].(parent := y)]
  }

  lemma RightStepsTurn(top: Node?, c: Ctx, t: Tree, h: Cells)
    requires t.T? && t.left.T? && Split(top, c, t, h)
    ensures t.node in h && h[t.node] == CellOf(t, Parent(c, null))
    ensures t.left.node in h && h[t.left.node] == CellOf(t.left, t.node) && t.left.node != t.node
    ensures t.left.right.T? ==> t.left.right.node in h && t.left.right.node != t.left.node
    ensures !c.Top? ==> c.node in h && (h[c.node].left == t.node <==> c.InL?)
    ensures !c.Top? ==> c.node != t.node && c.node != t.left.node && c.node != RootOf(t.left.right)
    ensures RightSteps(c, t.node, t.left.node, RootOf(t.left.right), h) == RightTurned(c, t, h)
  {
    var x, y, b := t.node, t.left.node, t.left.right;
    assert Linked(t.left, x, h) && Linked(b, y, h) && Distinct(t.left);
    assert y in Nodes(t.left) && x != y && (b.T? ==> b.node in Nodes(b) && b.node != y && b.node != x);
    if !c.Top? { HoleSide(top, c, t, h); assert c.node != x && c.node != y && c.node != RootOf(b); }
    assert h[x] == CellOf(t, Parent(c, null)) && h[y] == CellOf(t.left, x);
    assert b.T? ==> h[b.node] == CellOf(b, y);
  }

  lemma {:induction false} RightRotation(top: Node?, c: Ctx, t: Tree, h: Cells)
    requires t.T? && t.left.T? && Split(top, c, t, h)
    ensures t.node in h && h[t.node] == CellOf(t, Parent(c, null))
    ensures t.left.node in h && h[t.left.node] == CellOf(t.left, t.node) && t.left.node != t.node
    ensures t.left.right.T? ==> t.left.right.node in h && t.left.right.node != t.left.node
    ensures !c.Top? ==> c.node in h && (h[c.node].left == t.node <==> c.InL?)
    ensures !c.Top? ==> c.node != t.node && c.node != t.left.node && c.node != RootOf(t.left.right)
    ensures Split(if c.Top? then t.left.node else top, c, RotatedRight(t),
                  RightSteps(c, t.node, t.left.node, RootOf(t.left.right), h))
    ensures InOrder(Plug(c, RotatedRight(t))) == InOrder(Plug(c, t))
    ensures Nodes(Plug(c, RotatedRight(t))) == Nodes(Plug(c, t))
  {
    RightStepsTurn(top, c, t, h);
    RightTurnedLinks(top, c, t, h);
    RotatedRightKeeps(t);
    SwapInPlug(c, t, RotatedRight(t));
  }

  /** The code of the right rotation, as six field assignments; `c` only tells where `node` hangs. */
  method RotateRight(node: Node, root: Root, ghost c: Ctx, ghost S: set<Node>)
    requires node.left != null && node in S && node.left in S && node != node.left
    requires node.left.right != null ==> node.left.right in S && node.left.right != node.left
    requires node.parent == Parent(c, null)
    requires !c.Top? ==> c.node in S && (c.node.left == node <==> c.InL?)
                         && c.node != node && c.node != node.left && c.node != node.left.right
    modifies root`node, S`left, S`right, S`parent
    ensures Snap(S) == old(RightSteps(c, node, node.left, node.left.right, Snap(S)))
    ensures c.Top? ==> root.node == old(node.left)
    ensures !c.Top? ==> root.node == old(root.node)
  {
    var left := node.left;
    var parent := node.parent;
    SetLeft(node, left.right, S);
    if node.left != null {
      SetParent(left.right, node, S);
    }
    SetRight(left, node, S);
    SetParent(left, parent, S);
    Redirect(parent, node, left, root, c, S);
    SetParent(node, left, S);
  }

  /** Rotation at the root of `t`, wherever `t` hangs. */
  method RotateRightAt(node: Node, root: Root, ghost c: Ctx, ghost t: Tree)
    requires t.T? && t.left.T? && t.node == node && root.Holds(Plug(c, t))
    modifies root`node, Nodes(Plug(c, t))`left, Nodes(Plug(c, t))`right, Nodes(Plug(c, t))`parent
    ensures root.Holds(Plug(c, RotatedRight(t)))
    ensures InOrder(Plug(c, RotatedRight(t))) == InOrder(Plug(c, t))
    ensures Nodes(Plug(c, RotatedRight(t))) == Nodes(Plug(c, t))
  {
    ghost var S := Nodes(Plug(c, t));
    ghost var h := Snap(S);
    SplitFromHolds(root, c, t);
    RightRotation(root.node, c, t, h);
    assert node.left == t.left.node && node.left.right == RootOf(t.left.right);
    RotateRight(node, root, c, S);
    HoldsFromSplit(root, c, RotatedRight(t), S);
  }

  // ---- Reading and painting a node wherever it hangs ---------------------------------------

  /** What the fields of the root of `t` and of the node above it hold. */
  lemma {:induction false} View(root: Root, c: Ctx, t: Tree)
    requires root.Holds(Plug(c, t))
    ensures t.T? ==>
      && t.node in Nodes(Plug(c, t)) && t.node.parent == Parent(c, null) && t.node.color == t.color
      && t.node.left == RootOf(t.left) && t.node.right == RootOf(t.right)
    ensures !c.Top? ==>
      && c.node in Nodes(Plug(c, t)) && c.node.parent == Parent(c.up, null) && c.node.color == c.color
      && (c.InL? ==> c.node.left == RootOf(t) && c.node.right == RootOf(c.right))
      && (c.InR? ==> c.node.left == RootOf(c.left) && c.node.right == RootOf(t))
    ensures t.T? ==> (c.InR? ==> RootOf(c.left) != t.node) && (c.InL? ==> RootOf(c.right) != t.node)
    ensures c.Top? <==> root.node == RootOf(t)
  {
    var S := Nodes(Plug(c, t));
    SplitFromHolds(root, c, t);
    assert t.T? ==> Snap(S)[t.node] == CellOf(t, Parent(c, null));
    if !c.Top? {
      TopInCtx(c, RootOf(t), null, root.node, Snap(S));
      assert c.node in S && c.node !in Nodes(t);
      assert Snap(S)[c.node].parent == Parent(c.up, null);
    }
    assert c.InR? && c.left.T? ==> c.left.node in CtxNodes(c);
    assert c.InL? && c.right.T? ==> c.right.node in CtxNodes(c);
  }

  lemma PaintedLinks(top: Node?, c: Ctx, t: Tree, col: Color, h: Cells)
    requires t.T? && Split(top, c, t, h)
    ensures t.node in h
    ensures Split(top, c, t.(color := col), h[t.node := h[t.node].(color := col)])
  {
    var h' := h[t.node := h[t.node].(color := col)];
    LinkedFrame(t.left, t.node, h, h');
    LinkedFrame(t.right, t.node, h, h');
    CtxLinkedFrame(c, t.node, null, top, h, h');
  }

  method PaintAt(n: Node, col: Color, root: Root, ghost c: Ctx, ghost t: Tree)
    requires t.T? && t.node == n && root.Holds(Plug(c, t))
    modifies n`color
    ensures root.Holds(Plug(c, t.(color := col)))
    ensures InOrder(Plug(c, t.(color := col))) == InOrder(Plug(c, t))
    ensures Nodes(Plug(c, t.(color := col))) == Nodes(Plug(c, t))
  {
    ghost var S := Nodes(Plug(c, t));
    SplitFromHolds(root, c, t);
    PaintedLinks(root.node, c, t, col, Snap(S));
    SwapInPlug(c, t, t.(color := col));
    SetColor(n, col, S);
    HoldsFromSplit(root, c, t.(color := col), S);
  }

  // ---- Insertion (rbtree.h:181-189, rbtree.c:76-139) ---------------------------------------

  /** The state between two rounds of the insertion loop: a red-black tree but for a possible red
      edge above the red node `node`. */
  ghost predicate RedFocus(c: Ctx, t: Tree) {
    t.T? && t.color.Red? && Balanced(t) && Fits(c, Height(t), false) && TopBlack(c)
  }

  ghost predicate RedAt(root: Root, node: Node, c: Ctx, t: Tree, S: set<Node>, order: seq<Node>)
    reads root, Nodes(Plug(c, t))
  {
    && root.Holds(Plug(c, t)) && Nodes(Plug(c, t)) == S && InOrder(Plug(c, t)) == order
    && RedFocus(c, t) && t.node == node
  }

  ghost function Sibling(c: Ctx): Tree
    requires !c.Top?
  {
    if c.InL? then c.right else c.left
  }

  /** Around a red edge at the hole: the grandparent is black, the sibling and the uncle are balanced
      and as high as the tree at the hole, the sibling is black-rooted, and what is above fits. */
  lemma RedEdge(c: Ctx, h: nat)
    requires Fits(c, h, false) && TopBlack(c) && !c.Top? && c.color.Red?
    ensures !c.up.Top? && c.up.color.Black?
    ensures Balanced(Sibling(c)) && Height(Sibling(c)) == h && !RedRooted(Sibling(c))
    ensures Balanced(Sibling(c.up)) && Height(Sibling(c.up)) == h
    ensures Fits(c.up.up, h + 1, false) && TopBlack(c.up.up)
  {}

  /** The tree at the node above the hole. */
  ghost function Grown(c: Ctx, t: Tree): Tree
    requires !c.Top?
  {
    if c.InL? then T(t, c.node, c.color, c.right) else T(c.left, c.node, c.color, t)
  }

  lemma {:induction false} GrownPlug(c: Ctx, t: Tree)
    requires !c.Top?
    ensures Plug(c.up, Grown(c, t)) == Plug(c, t)
  {}

  /** Red left parent and red uncle: both turn black, the grandparent red. */
  method RecolorLeft(uncle: Node, parent: Node, gparent: Node, root: Root, ghost c: Ctx, ghost g: Tree)
    requires root.Holds(Plug(c, g)) && g.T? && g.node == gparent
    requires g.left.T? && g.left.node == parent && g.right.T? && g.right.node == uncle
    modifies uncle`color, parent`color, gparent`color
    ensures
      var g' := T(Blackened(g.left), gparent, Red, Blackened(g.right));
      root.Holds(Plug(c, g')) && InOrder(Plug(c, g')) == InOrder(Plug(c, g)) && Nodes(Plug(c, g')) == Nodes(Plug(c, g))
  {
    PaintAt(uncle, Black, root, InR(c, g.left, gparent, g.color), g.right);
    PaintAt(parent, Black, root, InL(c, gparent, g.color, Blackened(g.right)), g.left);
    PaintAt(gparent, Red, root, c, T(Blackened(g.left), gparent, g.color, Blackened(g.right)));
  }

  /** Red right parent and red uncle: both turn black, the grandparent red. */
  method RecolorRight(uncle: Node, parent: Node, gparent: Node, root: Root, ghost c: Ctx, ghost g: Tree)
    requires root.Holds(Plug(c, g)) && g.T? && g.node == gparent
    requires g.right.T? && g.right.node == parent && g.left.T? && g.left.node == uncle
    modifies uncle`color, parent`color, gparent`color
    ensures
      var g' := T(Blackened(g.left), gparent, Red, Blackened(g.right));
      root.Holds(Plug(c, g')) && InOrder(Plug(c, g')) == InOrder(Plug(c, g)) && Nodes(Plug(c, g')) == Nodes(Plug(c, g))
  {
    PaintAt(uncle, Black, root, InL(c, gparent, g.color, g.right), g.left);
    PaintAt(parent, Black, root, InR(c, Blackened(g.left), gparent, g.color), g.right);
    PaintAt(gparent, Red, root, c, T(Blackened(g.left), gparent, g.color, Blackened(g.right)));
  }

  /** Red left parent, black uncle, left grandchild: recolour and rotate at the grandparent. */
  method LiftLeft(parent: Node, gparent: Node, root: Root, ghost c: Ctx, ghost g: Tree)
    requires root.Holds(Plug(c, g)) && g.T? && g.node == gparent && g.left.T? && g.left.node == parent
    modifies root`node, parent`color, gparent`color
    modifies Nodes(Plug(c, g))`left, Nodes(Plug(c, g))`right, Nodes(Plug(c, g))`parent
    ensures
      var g' := T(g.left.left, parent, Black, T(g.left.right, gparent, Red, g.right));
      root.Holds(Plug(c, g')) && InOrder(Plug(c, g')) == InOrder(Plug(c, g)) && Nodes(Plug(c, g')) == Nodes(Plug(c, g))
  {
    PaintAt(parent, Black, root, InL(c, gparent, g.color, g.right), g.left);
    PaintAt(gparent, Red, root, c, T(Blackened(g.left), gparent, g.color, g.right));
    RotateRightAt(gparent, root, c, T(Blackened(g.left), gparent, Red, g.right));
  }

  /** Red right parent, black uncle, right grandchild: recolour and rotate at the grandparent. */
  method LiftRight(parent: Node, gparent: Node, root: Root, ghost c: Ctx, ghost g: Tree)
    requires root.Holds(Plug(c, g)) && g.T? && g.node == gparent && g.right.T? && g.right.node == parent
    modifies root`node, parent`color, gparent`color
    modifies Nodes(Plug(c, g))`left, Nodes(Plug(c, g))`right, Nodes(Plug(c, g))`parent
    ensures
      var g' := T(T(g.left, gparent, Red, g.right.left), parent, Black, g.right.right);
      root.Holds(Plug(c, g')) && InOrder(Plug(c, g')) == InOrder(Plug(c, g)) && Nodes(Plug(c, g')) == Nodes(Plug(c, g))
  {
    PaintAt(parent, Black, root, InR(c, g.left, gparent, g.color), g.right);
    PaintAt(gparent, Red, root, c, T(g.left, gparent, g.color, Blackened(g.right)));
    RotateLeftAt(gparent, root, c, T(g.left, gparent, Red, Blackened(g.right)));
  }

  /** What one round makes of a red edge under a left child: balance in each of the three cases. */
  lemma InsertLeftShape(c: Ctx, t: Tree)
    requires RedFocus(c, t) && !c.Top? && c.color.Red? && (c.up.Top? || c.up.InL?)
    ensures c.up.InL? && c.up.color.Black?
    ensures
      var c3, u, p, g := c.up.up, c.up.right, Grown(c, t), c.up.node;
      && (RedRooted(u) ==> RedFocus(c3, T(Blackened(p), g, Red, Blackened(u))))
      && (!RedRooted(u) && c.InL? ==> RedFocus(InL(c3, p.node, Black, T(p.right, g, Red, u)), p.left))
      && (!RedRooted(u) && c.InR? ==>
        var q := RotatedLeft(p);
        RedFocus(InL(c3, q.node, Black, T(q.right, g, Red, u)), q.left))
  {
    RedEdge(c, Height(t));
    if c.InR? {
      assert Balanced(T(c.left, c.node, Red, t.left));
    }
  }

  /** What one round makes of a red edge under a right child: balance in each of the three cases. */
  lemma InsertRightShape(c: Ctx, t: Tree)
    requires RedFocus(c, t) && !c.Top? && c.color.Red? && (c.up.Top? || c.up.InR?)
    ensures c.up.InR? && c.up.color.Black?
    ensures
      var c3, u, p, g := c.up.up, c.up.left, Grown(c, t), c.up.node;
      && (RedRooted(u) ==> RedFocus(c3, T(Blackened(u), g, Red, Blackened(p))))
      && (!RedRooted(u) && c.InR? ==> RedFocus(InR(c3, T(u, g, Red, p.left), p.node, Black), p.right))
      && (!RedRooted(u) && c.InL? ==>
        var q := RotatedRight(p);
        RedFocus(InR(c3, T(u, g, Red, q.left), q.node, Black), q.right))
  {
    RedEdge(c, Height(t));
    if c.InL? {
      assert Balanced(T(t.right, c.node, Red, c.right));
    }
  }

  /** One round of the insertion loop when the red parent is a left child. */
  method InsertLeft(node: Node, parent: Node, gparent: Node, root: Root,
                   ghost c: Ctx, ghost t: Tree, ghost S: set<Node>, ghost order: seq<Node>)
    returns (next: Node, ghost c': Ctx, ghost t': Tree)
    requires RedAt(root, node, c, t, S, order)
    requires !c.Top? && c.node == parent && c.color.Red? && c.up.InL? && c.up.node == gparent
    modifies root`node, S`left, S`right, S`parent, S`color
    ensures RedAt(root, next, c', t', S, order) && Depth(c') < Depth(c)
  {
    InsertLeftShape(c, t);
    ghost var c3, u, p := c.up.up, c.up.right, Grown(c, t);
    ghost var g := T(p, gparent, Black, u);
    assert Plug(c, t) == Plug(c.up, p) == Plug(c3, g);
    View(root, InR(c3, p, gparent, Black), u);
    View(root, c.up, p);
    View(root, c, t);
    var uncle := gparent.right;
    if uncle != null && uncle.color == Red {
      RecolorLeft(uncle, parent, gparent, root, c3, g);
      next, c', t' := gparent, c3, T(Blackened(p), gparent, Red, Blackened(u));
      return;
    }
    var upper, lower := parent, node;
    if parent.right == node {
      RotateLeftAt(parent, root, c.up, p);
      upper, lower := node, parent;
      p := RotatedLeft(p);
    }
    assert Plug(c.up, p) == Plug(c3, T(p, gparent, Black, u));
    LiftLeft(upper, gparent, root, c3, T(p, gparent, Black, u));
    next, c', t' := lower, InL(c3, upper, Black, T(p.right, gparent, Red, u)), p.left;
  }

  /** One round of the insertion loop when the red parent is a right child. */
  method InsertRight(node: Node, parent: Node, gparent: Node, root: Root,
                   ghost c: Ctx, ghost t: Tree, ghost S: set<Node>, ghost order: seq<Node>)
    returns (next: Node, ghost c': Ctx, ghost t': Tree)
    requires RedAt(root, node, c, t, S, order)
    requires !c.Top? && c.node == parent && c.color.Red? && c.up.InR? && c.up.node == gparent
    modifies root`node, S`left, S`right, S`parent, S`color
    ensures RedAt(root, next, c', t', S, order) && Depth(c') < Depth(c)
  {
    InsertRightShape(c, t);
    ghost var c3, u, p := c.up.up, c.up.left, Grown(c, t);
    ghost var g := T(u, gparent, Black, p);
    assert Plug(c, t) == Plug(c.up, p) == Plug(c3, g);
    View(root, InL(c3, gparent, Black, p), u);
    View(root, c.up, p);
    View(root, c, t);
    var uncle := gparent.left;
    if uncle != null && uncle.color == Red {
      RecolorRight(uncle, parent, gparent, root, c3, g);
      next, c', t' := gparent, c3, T(Blackened(u), gparent, Red, Blackened(p));
      return;
    }
    var upper, lower := parent, node;
    if parent.left == node {
      RotateRightAt(parent, root, c.up, p);
      upper, lower := node, parent;
      p := RotatedRight(p);
    }
    assert Plug(c.up, p) == Plug(c3, T(u, gparent, Black, p));
    LiftRight(upper, gparent, root, c3, T(u, gparent, Black, p));
    next, c', t' := lower, InR(c3, T(u, gparent, Red, p.left), upper, Black), p.right;
  }

  lemma {:induction false} NonEmptyPlug(c: Ctx, t: Tree)
    requires t.T?
    ensures Plug(c, t).T?
  {
    if !c.Top? {
      GrownPlug(c, t);
      NonEmptyPlug(c.up, Grown(c, t));
    }
  }

  method BlackenRoot(root: Root, ghost w: Tree)
    requires w.T? && root.Holds(w) && Balanced(w)
    modifies root`tree, Nodes(w)`color
    ensures root.Valid() && InOrder(root.tree) == InOrder(w) && Nodes(root.tree) == Nodes(w)
  {
    View(root, Top, w);
    PaintAt(root.node, Black, root, Top, w);
    root.tree := Blackened(w);
  }

  /** `rb_insert_color`: the tree with a red leaf `node` linked in becomes a red-black tree with
      the same in-order sequence. */
  method InsertColor(node: Node, root: Root, ghost c: Ctx)
    requires root.tree == Plug(c, T(Leaf, node, Red, Leaf)) && root.Holds(root.tree)
    requires IsRedBlack(Plug(c, Leaf))
    modifies root`node, root`tree, Nodes(root.tree)`left, Nodes(root.tree)`right, Nodes(root.tree)`parent,
      Nodes(root.tree)`color
    ensures root.Valid()
    ensures InOrder(root.tree) == old(InOrder(root.tree)) && Nodes(root.tree) == old(Nodes(root.tree))
  {
    ghost var S, order := Nodes(root.tree), InOrder(root.tree);
    ghost var d, t := c, T(Leaf, node, Red, Leaf);
    BalancedPlug(c, Leaf);
    RootPlug(c, Leaf);
    var x := node;
    View(root, d, t);
    var parent := x.parent;
    while parent != null && parent.color == Red
      invariant RedAt(root, x, d, t, S, order) && parent == x.parent
      invariant parent == Parent(d, null) && (parent != null ==> parent.color == d.color)
      decreases Depth(d)
    {
      assert !d.up.Top?;
      GrownPlug(d, t);
      View(root, d, t);
      View(root, d.up, Grown(d, t));
      var gparent := parent.parent;
      if parent == gparent.left {
        x, d, t := InsertLeft(x, parent, gparent, root, d, t, S, order);
      } else {
        x, d, t := InsertRight(x, parent, gparent, root, d, t, S, order);
      }
      View(root, d, t);
      parent := x.parent;
    }
    BalancedPlug(d, t);
    NonEmptyPlug(d, t);
    BlackenRoot(root, Plug(d, t));
  }

  // ---- Linking a new leaf (rbtree.h:181-189) -----------------------------------------------

  /** The C code passes the address of the link to overwrite. */
  datatype Link = AtRoot | AtLeft(node: Node) | AtRight(node: Node)

  ghost function HoleLink(c: Ctx): Link {
    match c
    case Top => AtRoot
    case InL(_, n, _, _) => AtLeft(n)
    case InR(_, _, n, _) => AtRight(n)
  }

  lemma {:induction false} LeafLinks(top: Node?, c: Ctx, n: Node, h: Cells)
    requires Split(top, c, Leaf, h) && n !in CtxNodes(c)
    ensures !c.Top? ==> c.node in h
    ensures Split(if c.Top? then n else top, c, T(Leaf, n, Red, Leaf),
                  Relinked(c, n, h)[n := Cell(Parent(c, null), Red, null, null)])
  {
    var h1 := Relinked(c, n, h);
    RelinkedLinks(c, null, n, null, top, h);
    CtxLinkedFrame(c, n, null, if c.Top? then n else top, h1, h1[n := Cell(Parent(c, null), Red, null, null)]);
  }

  /** The assignments of `rb_link_node`; `c` only tells which link `link` is. */
  method StoreLink(node: Node, parent: Node?, link: Link, root: Root, ghost c: Ctx, ghost S: set<Node>)
    requires parent == Parent(c, null) && link == HoleLink(c) && node !in S && (!c.Top? ==> c.node in S)
    modifies root`node, S`left, S`right, node`left, node`right, node`parent, node`color
    ensures Snap(S + {node}) == Relinked(c, node, old(Snap(S)))[node := Cell(parent, Red, null, null)]
    ensures c.Top? ==> root.node == node
    ensures !c.Top? ==> root.node == old(root.node)
  {
    node.parent, node.color := parent, Red;
    node.left, node.right := null, null;
    match link {
      case AtRoot => root.node := node;
      case AtLeft(n) => n.left := node;
      case AtRight(n) => n.right := node;
    }
  }

  /** `rb_link_node`: a red leaf where the hole was. */
  method LinkNode(node: Node, parent: Node?, link: Link, root: Root, ghost c: Ctx)
    requires root.Holds(root.tree) && root.tree == Plug(c, Leaf) && node !in Nodes(root.tree)
    requires parent == Parent(c, null) && link == HoleLink(c)
    modifies root`node, root`tree, Nodes(root.tree)`left, Nodes(root.tree)`right
    modifies node`left, node`right, node`parent, node`color
    ensures root.tree == Plug(c, T(Leaf, node, Red, Leaf)) && root.Holds(root.tree)
    ensures Nodes(root.tree) == old(Nodes(root.tree)) + {node}
  {
    ghost var S, leaf := Nodes(root.tree), T(Leaf, node, Red, Leaf);
    SplitFromHolds(root, c, Leaf);
    LeafLinks(root.node, c, node, Snap(S));
    NodesPlug(c, leaf);
    StoreLink(node, parent, link, root, c, S);
    HoldsFromSplit(root, c, leaf, S + {node});
    root.tree := Plug(c, leaf);
  }

  // ---- Rebalancing after an erasure (rbtree.c:143-211) -------------------------------------

  /** The tree at the hole is one black node short. */
  ghost predicate Short(c: Ctx, t: Tree) {
    BalancedBelow(t) && Fits(c, Height(t) + 1, false) && TopBlack(c)
  }

  ghost predicate ShortAt(root: Root, node: Node?, parent: Node?, c: Ctx, t: Tree, S: set<Node>, order: seq<Node>)
    reads root, Nodes(Plug(c, t))
  {
    && root.Holds(Plug(c, t)) && Nodes(Plug(c, t)) == S && InOrder(Plug(c, t)) == order
    && Short(c, t) && node == RootOf(t) && parent == Parent(c, null)
  }

  /** Red sibling of a short left subtree: recolour and rotate, to get a black sibling. */
  method RedSiblingLeft(parent: Node, other: Node, root: Root, ghost c: Ctx, ghost t: Tree)
    requires c.InL? && c.node == parent && c.right.T? && c.right.node == other && root.Holds(Plug(c, t))
    modifies root`node, parent`color, other`color
    modifies Nodes(Plug(c, t))`left, Nodes(Plug(c, t))`right, Nodes(Plug(c, t))`parent
    ensures
      var c' := InL(InL(c.up, other, Black, c.right.right), parent, Red, c.right.left);
      root.Holds(Plug(c', t)) && InOrder(Plug(c', t)) == InOrder(Plug(c, t)) && Nodes(Plug(c', t)) == Nodes(Plug(c, t))
  {
    ghost var w := c.right;
    PaintAt(other, Black, root, InR(c.up, t, parent, c.color), w);
    PaintAt(parent, Red, root, c.up, T(t, parent, c.color, Blackened(w)));
    RotateLeftAt(parent, root, c.up, T(t, parent, Red, Blackened(w)));
  }

  /** The sibling of a short left subtree is not empty. */
  lemma {:induction false} ShortSiblingLeft(c: Ctx, t: Tree)
    requires c.InL? && Short(c, t) && !RedRooted(t)
    ensures c.right.T? && Balanced(c.right) && Height(c.right) == Height(t) + 1 && Balanced(t)
    ensures Fits(c.up, if c.color.Black? then Height(t) + 2 else Height(t) + 1, c.color.Red?)
    ensures c.up.Top? ==> c.color.Black?
  {}

  /** What rotating at a red sibling makes of it. */
  lemma RedSiblingLeftShape(c: Ctx, t: Tree)
    requires c.InL? && Short(c, t) && !RedRooted(t) && RedRooted(c.right)
    ensures
      var w := c.right;
      w.left.T? && !RedRooted(w.left) && Short(InL(InL(c.up, w.node, Black, w.right), c.node, Red, w.left), t)
  {
    var w, k := c.right, Height(t) + 1;
    ShortSiblingLeft(c, t);
    assert !RedRooted(w.left) && Height(w.left) == k && Height(w.right) == k && Balanced(w.right) && Balanced(w.left);
    assert c.color.Black? && Fits(InL(c.up, w.node, Black, w.right), k, true);
    assert TopBlack(InL(c.up, w.node, Black, w.right));
  }

  /** What painting a black sibling red makes of it. */
  lemma BlackSiblingLeftShape(c: Ctx, t: Tree)
    requires c.InL? && Short(c, t) && !RedRooted(t)
    requires c.right.T? ==> !RedRooted(c.right) && !RedRooted(c.right.left) && !RedRooted(c.right.right)
    ensures c.right.T? && Short(c.up, T(t, c.node, c.color, c.right.(color := Red)))
  {
    ShortSiblingLeft(c, t);
    if c.color.Red? { FitsBlack(c.up, Height(t) + 1); }
  }

  /** What the last rotation makes of a black sibling with a red outer nephew. */
  lemma {:induction false} OuterNephewLeftShape(c: Ctx, t: Tree)
    requires c.InL? && Short(c, t) && !RedRooted(t)
    requires c.right.T? && BalancedBelow(c.right) && Height(c.right) == Height(t) + 1 && !RedRooted(c.right) &&
             RedRooted(c.right.right)
    ensures
      var w := c.right;
      var f := T(T(t, c.node, Black, w.left), w.node, c.color, Blackened(w.right));
      IsRedBlack(Plug(c.up, f))
  {
    var w := c.right;
    ShortSiblingLeft(c, t);
    assert Balanced(w.right) && Balanced(w.left) && Height(w.left) == Height(t) == Height(w.right);
    assert Balanced(T(t, c.node, Black, w.left)) && Balanced(Blackened(w.right));
    var f := T(T(t, c.node, Black, w.left), w.node, c.color, Blackened(w.right));
    assert Balanced(f);
    BalancedPlug(c.up, f);
    RootPlug(c.up, f);
  }

  /** What rotating at a black sibling with a red inner nephew only makes of it. */
  lemma InnerNephewLeftShape(c: Ctx, t: Tree)
    requires c.InL? && Short(c, t) && !RedRooted(t)
    requires c.right.T? && !RedRooted(c.right) && RedRooted(c.right.left) && !RedRooted(c.right.right)
    ensures
      var w := c.right;
      var v := RotatedRight(T(Blackened(w.left), w.node, Red, w.right));
      Short(InL(c.up, c.node, c.color, v), t) && RedRooted(v.right)
  {
    var w, k := c.right, Height(t);
    ShortSiblingLeft(c, t);
    assert Balanced(w.left) && Balanced(w.right) && Height(w.left) == k && Height(w.right) == k;
    var v := RotatedRight(T(Blackened(w.left), w.node, Red, w.right));
    assert v.left == w.left.left && v.right == T(w.left.right, w.node, Red, w.right);
    assert Balanced(w.left.left) && Balanced(w.left.right) && Height(w.left.left) == k && Height(w.left.right) == k;
    assert Balanced(v.right) && Height(v) == k + 1 && Balanced(v);
  }

  /** Black sibling with a red inner nephew only: turn it into the outer one. */
  method InnerNephewLeft(parent: Node, other: Node, root: Root, ghost c: Ctx, ghost t: Tree)
    requires c.InL? && c.node == parent && c.right.T? && c.right.node == other && c.right.left.T?
    requires root.Holds(Plug(c, t))
    modifies root`node, Nodes(Plug(c, t))`color
    modifies Nodes(Plug(c, t))`left, Nodes(Plug(c, t))`right, Nodes(Plug(c, t))`parent
    ensures
      var v := RotatedRight(T(Blackened(c.right.left), other, Red, c.right.right));
      var c' := InL(c.up, parent, c.color, v);
      root.Holds(Plug(c', t)) && InOrder(Plug(c', t)) == InOrder(Plug(c, t)) && Nodes(Plug(c', t)) == Nodes(Plug(c, t))
  {
    ghost var w, e := c.right, InR(c.up, t, parent, c.color);
    View(root, e, w);
    View(root, InL(e, other, w.color, w.right), w.left);
    PaintAt(other.left, Black, root, InL(e, other, w.color, w.right), w.left);
    PaintAt(other, Red, root, e, T(Blackened(w.left), other, w.color, w.right));
    RotateRightAt(other, root, e, T(Blackened(w.left), other, Red, w.right));
  }

  /** Black sibling with a red outer nephew: recolour and rotate at the parent. */
  method OuterNephewLeft(parent: Node, other: Node, root: Root, ghost c: Ctx, ghost t: Tree)
    requires c.InL? && c.node == parent && c.right.T? && c.right.node == other && c.right.right.T?
    requires root.Holds(Plug(c, t))
    modifies root`node, Nodes(Plug(c, t))`color
    modifies Nodes(Plug(c, t))`left, Nodes(Plug(c, t))`right, Nodes(Plug(c, t))`parent
    ensures
      var f := T(T(t, parent, Black, c.right.left), other, c.color, Blackened(c.right.right));
      root.Holds(Plug(c.up, f)) && InOrder(Plug(c.up, f)) == InOrder(Plug(c, t)) &&
        Nodes(Plug(c.up, f)) == Nodes(Plug(c, t))
  {
    ghost var w := c.right;
    View(root, c.up, T(t, parent, c.color, w));
    View(root, InR(c.up, t, parent, c.color), w);
    PaintAt(other, parent.color, root, InR(c.up, t, parent, c.color), w);
    ghost var w1 := w.(color := c.color);
    PaintAt(parent, Black, root, c.up, T(t, parent, c.color, w1));
    ghost var e := InR(c.up, t, parent, Black);
    View(root, e, w1);
    View(root, InR(e, w.left, other, c.color), w.right);
    PaintAt(other.right, Black, root, InR(e, w.left, other, c.color), w.right);
    RotateLeftAt(parent, root, c.up, T(t, parent, Black, T(w.left, other, c.color, Blackened(w.right))));
  }

  /** One round of the loop when the short subtree is a left child. */
  method EraseLeft(node: Node?, parent: Node, root: Root, ghost c0: Ctx, ghost t: Tree, ghost S: set<Node>,
                   ghost order: seq<Node>)
    returns (stop: bool, node': Node?, parent': Node?, ghost c': Ctx, ghost t': Tree)
    requires ShortAt(root, node, parent, c0, t, S, order) && c0.InL? && !RedRooted(t)
    modifies root`node, S`left, S`right, S`parent, S`color
    ensures !stop ==> ShortAt(root, node', parent', c', t', S, order) && (RedRooted(t') || Depth(c') < Depth(c0))
    ensures stop ==> node' == root.node && root.Holds(t') && Nodes(t') == S && InOrder(t') == order && IsRedBlack(t')
  {
    stop := false;
    ghost var c := c0;
    ShortSiblingLeft(c, t);
    View(root, InR(c.up, t, parent, c.color), c.right);
    View(root, c, t);
    var other := parent.right;
    if other.color == Red {
      RedSiblingLeftShape(c, t);
      RedSiblingLeft(parent, other, root, c, t);
      c := InL(InL(c.up, other, Black, c.right.right), parent, Red, c.right.left);
      View(root, c, t);
      other := parent.right;
    }
    ghost var w, e := c.right, InR(c.up, t, parent, c.color);
    assert Plug(c, t) == Plug(e, w);
    View(root, e, w);
    View(root, InL(e, other, w.color, w.right), w.left);
    View(root, InR(e, w.left, other, w.color), w.right);
    if (other.left == null || other.left.color == Black) && (other.right == null || other.right.color == Black) {
      BlackSiblingLeftShape(c, t);
      PaintAt(other, Red, root, e, w);
      node', c', t' := parent, c.up, T(t, parent, c.color, w.(color := Red));
      View(root, c', t');
      parent' := parent.parent;
    } else {
      if other.right == null || other.right.color == Black {
        InnerNephewLeftShape(c, t);
        InnerNephewLeft(parent, other, root, c, t);
        c := InL(c.up, parent, c.color, RotatedRight(T(Blackened(w.left), other, Red, w.right)));
        View(root, c, t);
        other := parent.right;
      }
      ShortSiblingLeft(c, t);
      OuterNephewLeftShape(c, t);
      OuterNephewLeft(parent, other, root, c, t);
      t' := Plug(c.up, T(T(t, parent, Black, c.right.left), other, c.color, Blackened(c.right.right)));
      stop, node', parent', c' := true, root.node, parent, Top;
    }
  }

  /** Red sibling of a short right subtree: recolour and rotate, to get a black sibling. */
  method RedSiblingRight(parent: Node, other: Node, root: Root, ghost c: Ctx, ghost t: Tree)
    requires c.InR? && c.node == parent && c.left.T? && c.left.node == other && root.Holds(Plug(c, t))
    modifies root`node, parent`color, other`color
    modifies Nodes(Plug(c, t))`left, Nodes(Plug(c, t))`right, Nodes(Plug(c, t))`parent
    ensures
      var c' := InR(InR(c.up, c.left.left, other, Black), c.left.right, parent, Red);
      root.Holds(Plug(c', t)) && InOrder(Plug(c', t)) == InOrder(Plug(c, t)) && Nodes(Plug(c', t)) == Nodes(Plug(c, t))
  {
    ghost var w := c.left;
    PaintAt(other, Black, root, InL(c.up, parent, c.color, t), w);
    PaintAt(parent, Red, root, c.up, T(Blackened(w), parent, c.color, t));
    RotateRightAt(parent, root, c.up, T(Blackened(w), parent, Red, t));
  }

  /** The sibling of a short right subtree is not empty. */
  lemma {:induction false} ShortSiblingRight(c: Ctx, t: Tree)
    requires c.InR? && Short(c, t) && !RedRooted(t)
    ensures c.left.T? && Balanced(c.left) && Height(c.left) == Height(t) + 1 && Balanced(t)
    ensures Fits(c.up, if c.color.Black? then Height(t) + 2 else Height(t) + 1, c.color.Red?)
    ensures c.up.Top? ==> c.color.Black?
  {}

  /** What rotating at a red sibling makes of it. */
  lemma RedSiblingRightShape(c: Ctx, t: Tree)
    requires c.InR? && Short(c, t) && !RedRooted(t) && RedRooted(c.left)
    ensures
      var w := c.left;
      w.right.T? && !RedRooted(w.right) && Short(InR(InR(c.up, w.left, w.node, Black), w.right, c.node, Red), t)
  {
    var w, k := c.left, Height(t) + 1;
    ShortSiblingRight(c, t);
    assert !RedRooted(w.right) && Height(w.right) == k && Height(w.left) == k && Balanced(w.left) && Balanced(w.right);
    assert c.color.Black? && Fits(InR(c.up, w.left, w.node, Black), k, true);
    assert TopBlack(InR(c.up, w.left, w.node, Black));
  }

  /** What painting a black sibling red makes of it. */
  lemma BlackSiblingRightShape(c: Ctx, t: Tree)
    requires c.InR? && Short(c, t) && !RedRooted(t)
    requires c.left.T? ==> !RedRooted(c.left) && !RedRooted(c.left.left) && !RedRooted(c.left.right)
    ensures c.left.T? && Short(c.up, T(c.left.(color := Red), c.node, c.color, t))
  {
    ShortSiblingRight(c, t);
    if c.color.Red? { FitsBlack(c.up, Height(t) + 1); }
  }

  /** What the last rotation makes of a black sibling with a red outer nephew. */
  lemma {:induction false} OuterNephewRightShape(c: Ctx, t: Tree)
    requires c.InR? && Short(c, t) && !RedRooted(t)
    requires c.left.T? && BalancedBelow(c.left) && Height(c.left) == Height(t) + 1 && !RedRooted(c.left) &&
             RedRooted(c.left.left)
    ensures
      var w := c.left;
      var f := T(Blackened(w.left), w.node, c.color, T(w.right, c.node, Black, t));
      IsRedBlack(Plug(c.up, f))
  {
    var w := c.left;
    ShortSiblingRight(c, t);
    assert Balanced(w.left) && Balanced(w.right) && Height(w.right) == Height(t) == Height(w.left);
    assert Balanced(T(w.right, c.node, Black, t)) && Balanced(Blackened(w.left));
    var f := T(Blackened(w.left), w.node, c.color, T(w.right, c.node, Black, t));
    assert Balanced(f);
    BalancedPlug(c.up, f);
    RootPlug(c.up, f);
  }

  /** What rotating at a black sibling with a red inner nephew only makes of it. */
  lemma InnerNephewRightShape(c: Ctx, t: Tree)
    requires c.InR? && Short(c, t) && !RedRooted(t)
    requires c.left.T? && !RedRooted(c.left) && RedRooted(c.left.right) && !RedRooted(c.left.left)
    ensures
      var w := c.left;
      var v := RotatedLeft(T(w.left, w.node, Red, Blackened(w.right)));
      Short(InR(c.up, v, c.node, c.color), t) && RedRooted(v.left)
  {
    var w, k := c.left, Height(t);
    ShortSiblingRight(c, t);
    assert Balanced(w.right) && Balanced(w.left) && Height(w.right) == k && Height(w.left) == k;
    var v := RotatedLeft(T(w.left, w.node, Red, Blackened(w.right)));
    assert v.right == w.right.right && v.left == T(w.left, w.node, Red, w.right.left);
    assert Balanced(w.right.right) && Balanced(w.right.left) && Height(w.right.right) == k && Height(w.right.left) == k;
    assert Balanced(v.left) && Height(v) == k + 1 && Balanced(v);
  }

  /** Black sibling with a red inner nephew only: turn it into the outer one. */
  method InnerNephewRight(parent: Node, other: Node, root: Root, ghost c: Ctx, ghost t: Tree)
    requires c.InR? && c.node == parent && c.left.T? && c.left.node == other && c.left.right.T?
    requires root.Holds(Plug(c, t))
    modifies root`node, Nodes(Plug(c, t))`color
    modifies Nodes(Plug(c, t))`left, Nodes(Plug(c, t))`right, Nodes(Plug(c, t))`parent
    ensures
      var v := RotatedLeft(T(c.left.left, other, Red, Blackened(c.left.right)));
      var c' := InR(c.up, v, parent, c.color);
      root.Holds(Plug(c', t)) && InOrder(Plug(c', t)) == InOrder(Plug(c, t)) && Nodes(Plug(c', t)) == Nodes(Plug(c, t))
  {
    ghost var w, e := c.left, InL(c.up, parent, c.color, t);
    View(root, e, w);
    View(root, InR(e, w.left, other, w.color), w.right);
    PaintAt(other.right, Black, root, InR(e, w.left, other, w.color), w.right);
    PaintAt(other, Red, root, e, T(w.left, other, w.color, Blackened(w.right)));
    RotateLeftAt(other, root, e, T(w.left, other, Red, Blackened(w.right)));
  }

  /** Black sibling with a red outer nephew: recolour and rotate at the parent. */
  method OuterNephewRight(parent: Node, other: Node, root: Root, ghost c: Ctx, ghost t: Tree)
    requires c.InR? && c.node == parent && c.left.T? && c.left.node == other && c.left.left.T?
    requires root.Holds(Plug(c, t))
    modifies root`node, Nodes(Plug(c, t))`color
    modifies Nodes(Plug(c, t))`left, Nodes(Plug(c, t))`right, Nodes(Plug(c, t))`parent
    ensures
      var f := T(Blackened(c.left.left), other, c.color, T(c.left.right, parent, Black, t));
      root.Holds(Plug(c.up, f)) && InOrder(Plug(c.up, f)) == InOrder(Plug(c, t)) &&
        Nodes(Plug(c.up, f)) == Nodes(Plug(c, t))
  {
    ghost var w := c.left;
    View(root, c.up, T(w, parent, c.color, t));
    View(root, InL(c.up, parent, c.color, t), w);
    PaintAt(other, parent.color, root, InL(c.up, parent, c.color, t), w);
    ghost var w1 := w.(color := c.color);
    PaintAt(parent, Black, root, c.up, T(w1, parent, c.color, t));
    ghost var e := InL(c.up, parent, Black, t);
    View(root, e, w1);
    View(root, InL(e, other, c.color, w.right), w.left);
    PaintAt(other.left, Black, root, InL(e, other, c.color, w.right), w.left);
    RotateRightAt(parent, root, c.up, T(T(Blackened(w.left), other, c.color, w.right), parent, Black, t));
  }

  /** One round of the loop when the short subtree is a right child. */
  method EraseRight(node: Node?, parent: Node, root: Root, ghost c0: Ctx, ghost t: Tree, ghost S: set<Node>,
                    ghost order: seq<Node>)
    returns (stop: bool, node': Node?, parent': Node?, ghost c': Ctx, ghost t': Tree)
    requires ShortAt(root, node, parent, c0, t, S, order) && c0.InR? && !RedRooted(t)
    modifies root`node, S`left, S`right, S`parent, S`color
    ensures !stop ==> ShortAt(root, node', parent', c', t', S, order) && (RedRooted(t') || Depth(c') < Depth(c0))
    ensures stop ==> node' == root.node && root.Holds(t') && Nodes(t') == S && InOrder(t') == order && IsRedBlack(t')
  {
    stop := false;
    ghost var c := c0;
    ShortSiblingRight(c, t);
    View(root, InL(c.up, parent, c.color, t), c.left);
    View(root, c, t);
    var other := parent.left;
    if other.color == Red {
      RedSiblingRightShape(c, t);
      RedSiblingRight(parent, other, root, c, t);
      c := InR(InR(c.up, c.left.left, other, Black), c.left.right, parent, Red);
      View(root, c, t);
      other := parent.left;
    }
    ghost var w, e := c.left, InL(c.up, parent, c.color, t);
    assert Plug(c, t) == Plug(e, w);
    View(root, e, w);
    View(root, InL(e, other, w.color, w.right), w.left);
    View(root, InR(e, w.left, other, w.color), w.right);
    if (other.left == null || other.left.color == Black) && (other.right == null || other.right.color == Black) {
      BlackSiblingRightShape(c, t);
      PaintAt(other, Red, root, e, w);
      node', c', t' := parent, c.up, T(w.(color := Red), parent, c.color, t);
      View(root, c', t');
      parent' := parent.parent;
    } else {
      if other.left == null || other.left.color == Black {
        InnerNephewRightShape(c, t);
        InnerNephewRight(parent, other, root, c, t);
        c := InR(c.up, RotatedLeft(T(w.left, other, Red, Blackened(w.right))), parent, c.color);
        View(root, c, t);
        other := parent.left;
      }
      ShortSiblingRight(c, t);
      OuterNephewRightShape(c, t);
      OuterNephewRight(parent, other, root, c, t);
      t' := Plug(c.up, T(Blackened(c.left.left), other, c.color, T(c.left.right, parent, Black, t)));
      stop, node', parent', c' := true, root.node, parent, Top;
    }
  }

  /** One round of the loop, whichever side is short. */
  method EraseRound(node: Node?, parent: Node, root: Root, ghost c: Ctx, ghost t: Tree, ghost S: set<Node>,
                    ghost order: seq<Node>)
    returns (stop: bool, node': Node?, parent': Node?, ghost c': Ctx, ghost t': Tree)
    requires ShortAt(root, node, parent, c, t, S, order) && !c.Top? && !RedRooted(t)
    modifies root`node, S`left, S`right, S`parent, S`color
    ensures ShortAt(root, node', if stop then null else parent', c', t', S, order)
    ensures !stop ==> RedRooted(t') || Depth(c') < Depth(c)
    ensures stop ==> c' == Top && IsRedBlack(t')
  {
    View(root, c, t);
    assert c.InR? ==> Height(c.left) > 0;
    if parent.left == node {
      stop, node', parent', c', t' := EraseLeft(node, parent, root, c, t, S, order);
    } else {
      stop, node', parent', c', t' := EraseRight(node, parent, root, c, t, S, order);
    }
    if stop {
      c' := Top;
    }
  }

  /** A short tree with a red root, or short as a whole, is repaired by a black root. */
  lemma {:induction false} ShortRepaired(c: Ctx, t: Tree)
    requires Short(c, t) && (RedRooted(t) || c.Top?)
    ensures IsRedBlack(Plug(c, Blackened(t)))
  {
    BalancedPlug(c, Blackened(t));
    RootPlug(c, Blackened(t));
  }

  method Settle(node: Node?, root: Root, ghost c: Ctx, ghost t: Tree)
    requires root.Holds(Plug(c, t)) && Short(c, t) && (RedRooted(t) || c.Top?) && node == RootOf(t)
    modifies root`tree, Nodes(Plug(c, t))`color
    ensures root.Valid() && InOrder(root.tree) == InOrder(Plug(c, t)) && Nodes(root.tree) == Nodes(Plug(c, t))
  {
    ShortRepaired(c, t);
    View(root, c, t);
    if node != null {
      PaintAt(node, Black, root, c, t);
    }
    root.tree := Plug(c, Blackened(t));
  }

  /** `__rb_erase_color`: a tree one black node short at `node` becomes a red-black tree with the
      same in-order sequence. */
  method EraseColor(node0: Node?, parent0: Node?, root: Root, ghost c0: Ctx, ghost t0: Tree)
    requires root.Holds(Plug(c0, t0)) && Short(c0, t0)
    requires node0 == RootOf(t0) && parent0 == Parent(c0, null)
    modifies root`node, root`tree, Nodes(Plug(c0, t0))`left, Nodes(Plug(c0, t0))`right, Nodes(Plug(c0, t0))`parent,
      Nodes(Plug(c0, t0))`color
    ensures root.Valid() && InOrder(root.tree) == InOrder(Plug(c0, t0)) && Nodes(root.tree) == Nodes(Plug(c0, t0))
  {
    ghost var S, order := Nodes(Plug(c0, t0)), InOrder(Plug(c0, t0));
    ghost var c, t := c0, t0;
    var node, parent := node0, parent0;
    View(root, c, t);
    while (node == null || node.color == Black) && node != root.node
      invariant ShortAt(root, node, parent, c, t, S, order)
      invariant (node != null ==> node in S && node.color == t.color) && (c.Top? <==> root.node == node)
      decreases if RedRooted(t) then 0 else 1 + Depth(c)
    {
      var stop;
      stop, node, parent, c, t := EraseRound(node, parent, root, c, t, S, order);
      View(root, c, t);
      if stop {
        parent := null;
        break;
      }
    }
    Settle(node, root, c, t);
  }

  // ---- Erasure (rbtree.c:213-279) ----------------------------------------------------------

  /** The sequence without its first occurrence of `x`. */
  ghost function Without<X>(s: seq<X>, x: X): seq<X> {
    if s == [] then [] else if s[0] == x then s[1..] else [s[0]] + Without(s[1..], x)
  }

  lemma {:induction false} WithoutMiddle<X>(a: seq<X>, x: X, b: seq<X>)
    requires x !in a
    ensures Without(a + [x] + b, x) == a + b
  {
    var s := a + [x] + b;
    if a == [] {
      assert s == [x] + b;
    } else {
      assert s[1..] == a[1..] + [x] + b;
      WithoutMiddle(a[1..], x, b);
    }
  }

  /** Taking out the node between two in-order neighbours. */
  lemma {:induction false} PlugWithout(c: Ctx, l: Tree, n: Node, col: Color, r: Tree, k: Tree)
    requires Distinct(Plug(c, T(l, n, col, r))) && InOrder(k) == InOrder(l) + InOrder(r)
    ensures InOrder(Plug(c, k)) == Without(InOrder(Plug(c, T(l, n, col, r))), n)
    ensures Nodes(Plug(c, k)) == Nodes(Plug(c, T(l, n, col, r))) - {n}
  {
    var t := T(l, n, col, r);
    DistinctPlug(c, t);
    InOrderPlug(c, t);
    InOrderPlug(c, k);
    Around(Before(c), InOrder(l), [n], InOrder(r), After(c));
    NotBefore(c, t);
    WithoutMiddle(Before(c) + InOrder(l), n, InOrder(r) + After(c));
    PlugNodesWithout(c, t, k);
  }

  lemma {:induction false} NotBefore(c: Ctx, t: Tree)
    requires t.T? && Apart(c, t)
    ensures t.node !in Before(c) + InOrder(t.left)
  {
    BeforeInCtx(c);
    NodesInOrder(t.left);
    assert t.node !in InOrder(t.left);
  }

  lemma {:induction false} PlugNodesWithout(c: Ctx, t: Tree, k: Tree)
    requires t.T? && Apart(c, t) && InOrder(k) == InOrder(t.left) + InOrder(t.right)
    ensures Nodes(Plug(c, k)) == Nodes(Plug(c, t)) - {t.node}
  {
    hide Plug, InOrder;
    NodesPlug(c, t);
    NodesPlug(c, k);
    NodesInOrder(t.left);
    NodesInOrder(t.right);
    NodesInOrder(k);
    assert forall m :: m in InOrder(k) <==> m in InOrder(t.left) || m in InOrder(t.right);
  }

  lemma {:induction false} BeforeInCtx(c: Ctx)
    ensures forall n :: n in Before(c) ==> n in CtxNodes(c)
  {
    if !c.Top? {
      BeforeInCtx(c.up);
      if c.InR? { NodesInOrder(c.left); }
    }
  }

  /** Splicing out a node with at most one child. */
  lemma SpliceLinks(top: Node?, c: Ctx, t: Tree, k: Tree, h: Cells)
    requires t.T? && Split(top, c, t, h)
    requires (t.left.Leaf? && k == t.right) || (t.right.Leaf? && k == t.left)
    ensures !c.Top? ==> c.node in h
    ensures Split(if c.Top? then RootOf(k) else top, c, k, Relinked(c, RootOf(k), Hung(k, Parent(c, null), h)))
  {
    var h1 := Hung(k, Parent(c, null), h);
    assert Nodes(k) <= Nodes(t);
    assert k.T? ==> k.node in Nodes(k);
    HungLinks(k, t.node, Parent(c, null), h);
    CtxLinkedFrame(c, t.node, null, top, h, h1);
    RelinkedLinks(c, t.node, RootOf(k), null, top, h1);
    LinkedFrame(k, Parent(c, null), h1, Relinked(c, RootOf(k), h1));
  }

  /** The assignments that splice out a node with at most one child. */
  method SpliceOut(node: Node, child: Node?, parent: Node?, root: Root, ghost c: Ctx, ghost S: set<Node>)
    requires parent == Parent(c, null) && (child != null ==> child in S)
    requires !c.Top? ==> c.node in S && c.node != child && (c.node.left == node <==> c.InL?)
    modifies root`node, S`left, S`right, S`parent
    ensures
      var h := old(Snap(S));
      Snap(S) == Relinked(c, child, if child != null then h[child := h[child].(parent := parent)] else h)
    ensures c.Top? ==> root.node == child
    ensures !c.Top? ==> root.node == old(root.node)
  {
    if child != null {
      SetParent(child, parent, S);
    }
    Redirect(parent, node, child, root, c, S);
  }

  /** `rb_erase` for a node with at most one child, up to the rebalancing. */
  method EraseOuter(node: Node, child: Node?, root: Root, ghost c: Ctx, ghost t: Tree, ghost k: Tree)
    returns (parent: Node?, color: Color)
    requires t.T? && t.node == node && root.Holds(Plug(c, t)) && child == RootOf(k)
    requires (t.left.Leaf? && k == t.right) || (t.right.Leaf? && k == t.left)
    modifies root`node, Nodes(Plug(c, t))`left, Nodes(Plug(c, t))`right, Nodes(Plug(c, t))`parent
    ensures parent == Parent(c, null) && color == t.color && root.Holds(Plug(c, k))
    ensures InOrder(Plug(c, k)) == Without(InOrder(Plug(c, t)), node)
    ensures Nodes(Plug(c, k)) == Nodes(Plug(c, t)) - {node}
  {
    ghost var S := Nodes(Plug(c, t));
    ghost var h := Snap(S);
    SplitFromHolds(root, c, t);
    View(root, c, t);
    SpliceLinks(root.node, c, t, k, h);
    PlugWithout(c, t.left, node, t.color, t.right, k);
    ChildCell(root.node, c, t, k, h);
    parent := node.parent;
    color := node.color;
    SpliceOut(node, child, parent, root, c, S);
    HoldsFromSplit(root, c, k, S);
  }

  lemma {:induction false} ChildCell(top: Node?, c: Ctx, t: Tree, k: Tree, h: Cells)
    requires t.T? && Split(top, c, t, h) && (k == t.left || k == t.right)
    ensures k.T? ==> k.node in h && k.node in Nodes(t) && h[k.node] == CellOf(k, t.node)
  {
    assert Linked(k, t.node, h);
    assert k.T? ==> k.node in Nodes(k) && h[k.node] == CellOf(k, t.node);
    assert Nodes(k) <= Nodes(t);
  }

  /** The tree without the node, balanced or one black node short where it was. */
  lemma {:induction false} OuterShape(c: Ctx, t: Tree, k: Tree)
    requires t.T? && IsRedBlack(Plug(c, t))
    requires (t.left.Leaf? && k == t.right) || (t.right.Leaf? && k == t.left)
    ensures t.color.Red? ==> IsRedBlack(Plug(c, k))
    ensures t.color.Black? ==> Short(c, k)
  {
    hide Plug, Fits;
    BalancedPlug(c, t);
    RootPlug(c, t);
    BalancedPlug(c, k);
    RootPlug(c, k);
    OuterChild(t, k);
    hide Balanced, Height;
    if t.color.Red? { FitsBlack(c, Height(t)); }
  }

  lemma {:induction false} OuterChild(t: Tree, k: Tree)
    requires t.T? && Balanced(t) && ((t.left.Leaf? && k == t.right) || (t.right.Leaf? && k == t.left))
    ensures Balanced(k) && BalancedBelow(k) && (t.color.Red? ==> !RedRooted(k))
    ensures Height(t) == Height(k) + if t.color.Black? then 1 else 0
  {}

  // ---- Erasure of a node with two children: its successor takes its place -------------------

  /** A context that only goes down left links. */
  ghost predicate LeftSpine(d: Ctx) {
    d.Top? || (d.InL? && LeftSpine(d.up))
  }

  /** Inside the right subtree: the successor's right subtree takes the successor's place, and the
      whole hangs below `s`. */
  ghost function Detached(d: Ctx, sr: Tree, s: Node, h: Cells): Cells
    requires !d.Top? && d.node in h
  {
    Hung(Plug(d, sr), s, Relinked(d, RootOf(sr), Hung(sr, d.node, h)))
  }

  lemma {:induction false} DetachedLinks(d: Ctx, sr: Tree, s: Node, sc: Color, old_: Node, h: Cells)
    requires !d.Top? && Linked(Plug(d, T(Leaf, s, sc, sr)), old_, h) && Distinct(Plug(d, T(Leaf, s, sc, sr)))
    ensures d.node in h && Linked(Plug(d, sr), s, Detached(d, sr, s, h))
    ensures Linked(Plug(d, sr), old_, Relinked(d, RootOf(sr), Hung(sr, d.node, h)))
    ensures RootOf(Plug(d, sr)) == RootOf(Plug(d, T(Leaf, s, sc, sr))) != null && Distinct(Plug(d, sr))
  {
    var succ, top := T(Leaf, s, sc, sr), RootOf(Plug(d, T(Leaf, s, sc, sr)));
    LinkedPlug(d, succ, old_, top, h);
    DistinctPlug(d, succ);
    DistinctPlug(d, sr);
    TopInCtx(d, s, old_, top, h);
    var h1 := Hung(sr, d.node, h);
    assert sr.T? ==> sr.node in Nodes(sr);
    HungLinks(sr, s, d.node, h);
    CtxLinkedFrame(d, s, old_, top, h, h1);
    RelinkedLinks(d, s, RootOf(sr), old_, top, h1);
    LinkedFrame(sr, d.node, h1, Relinked(d, RootOf(sr), h1));
    LinkedPlug(d, sr, old_, top, Relinked(d, RootOf(sr), h1));
    HungLinks(Plug(d, sr), old_, s, Relinked(d, RootOf(sr), h1));
  }

  /** A node `t.node` with two children whose successor `s`, the last left child down `d` in its
      right subtree, has `sr` to its right. */
  ghost predicate HasSuccessor(t: Tree, d: Ctx, s: Node, sc: Color, sr: Tree) {
    t.T? && t.left.T? && t.right == Plug(d, T(Leaf, s, sc, sr)) && LeftSpine(d)
  }

  /** The tree with the successor in the node's place. */
  ghost function Succeeded(t: Tree, d: Ctx, s: Node, sr: Tree): Tree
    requires t.T?
  {
    T(t.left, s, t.color, Plug(d, sr))
  }

  ghost function SucceededCells(c: Ctx, t: Tree, d: Ctx, s: Node, sr: Tree, h: Cells): Cells
    requires t.T? && (!c.Top? ==> c.node in h) && (!d.Top? ==> d.node in h)
  {
    var h1 := if d.Top? then h else Detached(d, sr, s, h);
    Hung(t.left, s, Relinked(c, s, h1))[s := CellOf(Succeeded(t, d, s, sr), Parent(c, null))]
  }

  lemma {:induction false} SuccessorApart(t: Tree, d: Ctx, s: Node, sc: Color, sr: Tree)
    requires Distinct(t) && HasSuccessor(t, d, s, sc, sr)
    ensures Nodes(t.right) == CtxNodes(d) + {s} + Nodes(sr) && Nodes(Plug(d, sr)) == CtxNodes(d) + Nodes(sr)
    ensures Apart(d, sr) && s !in CtxNodes(d) && s !in Nodes(sr) && s !in Nodes(t.left) && s != t.node
    ensures Distinct(Succeeded(t, d, s, sr))
    ensures Nodes(Succeeded(t, d, s, sr)) == Nodes(t) - {t.node}
    ensures InOrder(t.right) == [s] + InOrder(Plug(d, sr))
  {
    var succ := T(Leaf, s, sc, sr);
    NodesPlug(d, succ);
    NodesPlug(d, sr);
    DistinctPlug(d, succ);
    DistinctPlug(d, sr);
    assert s in Nodes(t.right);
    SpineOrder(d, s, sc, sr);
  }

  lemma {:induction false} SpineOrder(d: Ctx, s: Node, sc: Color, sr: Tree)
    requires LeftSpine(d)
    ensures InOrder(Plug(d, T(Leaf, s, sc, sr))) == [s] + InOrder(Plug(d, sr))
  {
    InOrderPlug(d, T(Leaf, s, sc, sr));
    InOrderPlug(d, sr);
    NothingBefore(d);
  }

  lemma {:induction false} NothingBefore(d: Ctx)
    requires LeftSpine(d)
    ensures Before(d) == []
  {
    if !d.Top? { NothingBefore(d.up); }
  }

  lemma SucceededLinks(top: Node?, c: Ctx, t: Tree, d: Ctx, s: Node, sc: Color, sr: Tree, h: Cells)
    requires Split(top, c, t, h) && HasSuccessor(t, d, s, sc, sr)
    ensures (!c.Top? ==> c.node in h) && (!d.Top? ==> d.node in h)
    ensures Split(if c.Top? then s else top, c, Succeeded(t, d, s, sr), SucceededCells(c, t, d, s, sr, h))
  {
    var r, r' := t.right, Plug(d, sr);
    SuccessorApart(t, d, s, sc, sr);
    assert Linked(r, t.node, h) && Linked(t.left, t.node, h);
    if d.Top? {
      assert Linked(r', s, h);
    } else {
      DetachedLinks(d, sr, s, sc, t.node, h);
    }
    var h1 := if d.Top? then h else Detached(d, sr, s, h);
    assert d.Top? || (RootOf(r') == r.node && d.node in Nodes(r) && (sr.T? ==> sr.node in Nodes(r)));
    assert forall n :: n in h && n !in Nodes(r) ==> n in h1 && h1[n] == h[n];
    SucceededFinish(top, c, t, d, s, sr, h, h1);
  }

  lemma {:induction false} SucceededFinish(top: Node?, c: Ctx, t: Tree, d: Ctx, s: Node, sr: Tree, h: Cells, h1: Cells)
    requires Split(top, c, t, h) && t.T? && t.left.T? && s in Nodes(t.right)
    requires Linked(Plug(d, sr), s, h1) && Nodes(Plug(d, sr)) <= Nodes(t.right) - {s}
    requires Distinct(Succeeded(t, d, s, sr))
    requires forall n :: n in h && n !in Nodes(t.right) ==> n in h1 && h1[n] == h[n]
    ensures !c.Top? ==> c.node in h1
    ensures
      var h' := Hung(t.left, s, Relinked(c, s, h1))[s := CellOf(Succeeded(t, d, s, sr), Parent(c, null))];
      Split(if c.Top? then s else top, c, Succeeded(t, d, s, sr), h')
  {
    assert Linked(t.left, t.node, h1) by { LinkedFrame(t.left, t.node, h, h1); }
    assert CtxLinked(c, t.node, null, top, h1) by { CtxLinkedFrame(c, t.node, null, top, h, h1); }
    var h2 := Relinked(c, s, h1);
    RelinkedLinks(c, t.node, s, null, top, h1);
    LinkedFrame(t.left, t.node, h1, h2);
    LinkedFrame(Plug(d, sr), s, h1, h2);
    HungLinks(t.left, t.node, s, h2);
    var h3 := Hung(t.left, s, h2);
    assert t.left.node in Nodes(t.left);
    var h4 := h3[s := CellOf(Succeeded(t, d, s, sr), Parent(c, null))];
    LinkedFrame(t.left, s, h3, h4);
    LinkedFrame(Plug(d, sr), s, h2, h4);
    CtxLinkedFrame(c, s, null, if c.Top? then s else top, h2, h4);
  }

  /** The four assignments that take the successor `s` out of its place below `d`. */
  ghost function DetachSteps(d: Ctx, s: Node, child: Node?, ro: Node, h: Cells): Cells
    requires s in h && ro in h && (child != null ==> child in h) && !d.Top? && d.node in h
  {
    var a := if child != null then h[child := h[child].(parent := d.node)] else h;
    var b := Relinked(d, child, a);
    var e := b[s := b[s].(right := ro)];
    e[ro := e[ro].(parent := s)]
  }

  /** The assignments that give `s` the parent, colour and left child of `n`. */
  ghost function TakeOverSteps(n: Node, s: Node, lo: Node, h: Cells): Cells
    requires n in h && s in h && lo in h
  {
    var h3 := h[s := h[s].(parent := h[n].parent, color := h[n].color)];
    var h4 := h3[s := h3[s].(left := lo)];
    h4[lo := h4[lo].(parent := s)]
  }

  /** The assignments of the two-child case, in the order of the code. */
  ghost function SuccessorSteps(c: Ctx, d: Ctx, n: Node, s: Node, child: Node?, lo: Node, ro: Node, h: Cells): Cells
    requires n in h && s in h && lo in h && ro in h && (child != null ==> child in h)
    requires (!c.Top? ==> c.node in h) && (!d.Top? ==> d.node in h)
  {
    var h1 := Relinked(c, s, h);
    TakeOverSteps(n, s, lo, if d.Top? then h1 else DetachSteps(d, s, child, ro, h1))
  }

  method Detach(n: Node, s: Node, child: Node?, parent: Node, ghost d: Ctx, ghost S: set<Node>)
    requires s in S && n.right != null && n.right in S && n != s && n.right != n && n != parent && n != child
    requires d.InL? && d.node in S && d.node == parent && (child != null ==> child in S)
    modifies S`left, S`right, S`parent
    ensures Snap(S) == DetachSteps(d, s, child, old(n.right), old(Snap(S)))
    ensures n.left == old(n.left) && n.parent == old(n.parent) && n.right == old(n.right)
  {
    if child != null {
      SetParent(child, parent, S);
    }
    SetLeft(parent, child, S);
    SetRight(s, n.right, S);
    SetParent(n.right, s, S);
  }

  method TakeOver(n: Node, s: Node, ghost S: set<Node>)
    requires n in S && s in S && n != s && n.left != null && n.left in S
    modifies S`parent, S`color, S`left
    ensures Snap(S) == TakeOverSteps(n, s, old(n.left), old(Snap(S)))
  {
    SetParent(s, n.parent, S);
    SetColor(s, n.color, S);
    SetLeft(s, n.left, S);
    SetParent(n.left, s, S);
  }

  method SpliceSuccessor(n: Node, s: Node, root: Root, ghost c: Ctx, ghost d: Ctx, ghost S: set<Node>)
    returns (child: Node?, parent: Node, color: Color)
    requires n in S && s in S && n != s && n.parent == Parent(c, null)
    requires n.left != null && n.left in S && n.right != null && n.right in S && n.right != n
    requires s.right != null ==> s.right in S
    requires !c.Top? ==> c.node in S && c.node != n && c.node != s && (c.node.left == n <==> c.InL?)
    requires d.Top? || (d.InL? && d.node in S && d.node != n)
    requires s.parent == Parent(d, n) && s.right != n
    modifies root`node, S`left, S`right, S`parent, S`color
    ensures Snap(S) == old(SuccessorSteps(c, d, n, s, s.right, n.left, n.right, Snap(S)))
    ensures child == old(s.right) && color == old(s.color) && parent == Parent(d, s)
    ensures c.Top? ==> root.node == s
    ensures !c.Top? ==> root.node == old(root.node)
  {
    Redirect(n.parent, n, s, root, c, S);
    assert Snap(S)[n] == old(Snap(S)[n]) && Snap(S)[s] == old(Snap(S)[s]);
    child := s.right;
    parent := s.parent;
    color := s.color;
    if parent == n {
      parent := s;
    } else {
      Detach(n, s, child, parent, d, S);
    }
    TakeOver(n, s, S);
  }

  /** The cells the code touches in the two-child case are different ones. */
  lemma {:induction false} SuccessorCells(top: Node?, c: Ctx, t: Tree, d: Ctx, s: Node, sc: Color, sr: Tree, h: Cells)
    requires Split(top, c, t, h) && HasSuccessor(t, d, s, sc, sr)
    ensures t.right.T? && t.node in h && s in h && t.left.node in h && t.right.node in h && (sr.T? ==> sr.node in h)
    ensures (!c.Top? ==> c.node in h) && (!d.Top? ==> d.node in h)
    ensures h[t.node] == CellOf(t, Parent(c, null)) && h[s] == Cell(Parent(d, t.node), sc, RootOf(sr), null)
    ensures h[t.left.node] == CellOf(t.left, t.node) && (sr.T? ==> h[sr.node] == CellOf(sr, s))
    ensures !d.Top? ==> d.node in Nodes(t.right) && d.node != s && t.right.node != s && d.node != RootOf(sr)
    ensures !c.Top? ==> c.node !in Nodes(t) && (h[c.node].left == t.node <==> c.InL?)
    ensures s in Nodes(t.right) && (sr.T? ==> sr.node in Nodes(t.right) && sr.node != s) &&
            t.right.node in Nodes(t.right)
    ensures t.node in Nodes(t) && t.left.node in Nodes(t) && t.left.node !in Nodes(t.right) && t.node !in Nodes(t.right)
    ensures Nodes(t.right) <= Nodes(t) && t.node != t.left.node
  {
    var r := t.right;
    SuccessorApart(t, d, s, sc, sr);
    assert Linked(r, t.node, h) && Linked(t.left, t.node, h);
    LinkedPlug(d, T(Leaf, s, sc, sr), t.node, RootOf(r), h);
    assert Linked(sr, s, h);
    assert t.left.node in Nodes(t.left) && r.node in Nodes(r) && (sr.T? ==> sr.node in Nodes(sr));
    if !c.Top? { HoleSide(top, c, t, h); }
    if !d.Top? {
      DetachedLinks(d, sr, s, sc, t.node, h);
      assert r.node == RootOf(Plug(d, sr)) && r.node in Nodes(Plug(d, sr));
    }
  }

  lemma {:induction false} DetachStepsMeet(d: Ctx, s: Node, sr: Tree, ro: Node, n: Node, h: Cells)
    requires !d.Top? && d.node in h && s in h && ro in h && (sr.T? ==> sr.node in h && h[sr.node] == CellOf(sr, s))
    requires Linked(Plug(d, sr), n, Relinked(d, RootOf(sr), Hung(sr, d.node, h))) && RootOf(Plug(d, sr)) == ro
    requires s != ro && d.node != s && RootOf(sr) != s
    ensures DetachSteps(d, s, RootOf(sr), ro, h) == Detached(d, sr, s, h)[s := h[s].(right := ro)]
  {
    var b := Relinked(d, RootOf(sr), Hung(sr, d.node, h));
    assert b[ro] == CellOf(Plug(d, sr), n);
  }

  lemma RelinkedSwap(c: Ctx, s: Node, x: Node, v: Cell, h: Cells)
    requires (!c.Top? ==> c.node in h && c.node != x)
    ensures Relinked(c, s, h[x := v]) == Relinked(c, s, h)[x := v]
  {}

  lemma DetachStepsSwap(c: Ctx, d: Ctx, s: Node, child: Node?, ro: Node, h: Cells)
    requires s in h && ro in h && (child != null ==> child in h) && !d.Top? && d.node in h
    requires !c.Top? ==> c.node in h && c.node != s && c.node != child && c.node != ro && c.node != d.node
    ensures DetachSteps(d, s, child, ro, Relinked(c, s, h)) == Relinked(c, s, DetachSteps(d, s, child, ro, h))
  {
    var a := if child != null then h[child := h[child].(parent := d.node)] else h;
    if child != null { RelinkedSwap(c, s, child, h[child].(parent := d.node), h); }
    var b := Relinked(d, child, a);
    RelinkedSwap(c, s, d.node, b[d.node], a);
    assert Relinked(d, child, Relinked(c, s, a)) == Relinked(c, s, b);
    var e := b[s := b[s].(right := ro)];
    RelinkedSwap(c, s, s, b[s].(right := ro), b);
    RelinkedSwap(c, s, ro, e[ro].(parent := s), e);
  }

  lemma SuccessorStepsMeet(top: Node?, c: Ctx, t: Tree, d: Ctx, s: Node, sc: Color, sr: Tree, h: Cells)
    requires Split(top, c, t, h) && HasSuccessor(t, d, s, sc, sr)
    ensures t.right.T? && t.node in h && s in h && t.left.node in h && t.right.node in h && (sr.T? ==> sr.node in h)
    ensures (!c.Top? ==> c.node in h) && (!d.Top? ==> d.node in h)
    ensures SuccessorSteps(c, d, t.node, s, RootOf(sr), t.left.node, t.right.node, h)
         == SucceededCells(c, t, d, s, sr, h)
  {
    var n, lo, ro, child := t.node, t.left.node, RootOf(t.right), RootOf(sr);
    SuccessorCells(top, c, t, d, s, sc, sr, h);
    if !d.Top? {
      SuccessorApart(t, d, s, sc, sr);
      DetachedLinks(d, sr, s, sc, n, h);
      DetachStepsSwap(c, d, s, child, ro, h);
      DetachStepsMeet(d, s, sr, ro, n, h);
      RelinkedSwap(c, s, s, h[s].(right := ro), Detached(d, sr, s, h));
      DetachedElsewhere(t, d, s, sc, sr, h);
    }
    var h1 := if d.Top? then h else Detached(d, sr, s, h);
    TakeOverMeet(c, t, d, s, sr, h[s].(right := RootOf(Plug(d, sr))), h, h1);
  }

  lemma {:induction false} DetachedElsewhere(t: Tree, d: Ctx, s: Node, sc: Color, sr: Tree, h: Cells)
    requires HasSuccessor(t, d, s, sc, sr) && !d.Top? && d.node in h && d.node in Nodes(t.right)
    requires RootOf(Plug(d, sr)) == RootOf(t.right) && t.right.T? && (sr.T? ==> sr.node in Nodes(t.right))
    ensures forall m :: m in h && m !in Nodes(t.right) ==>
              m in Detached(d, sr, s, h) && Detached(d, sr, s, h)[m] == h[m]
  {
    assert t.right.node in Nodes(t.right);
  }

  lemma {:induction false} TakeOverMeet(c: Ctx, t: Tree, d: Ctx, s: Node, sr: Tree, v: Cell, h: Cells, h1: Cells)
    requires t.T? && t.left.T? && t.node in h && t.left.node in h && s in h && (!c.Top? ==> c.node in h)
    requires forall m :: m in h && m !in Nodes(t.right) ==> m in h1 && h1[m] == h[m]
    requires s in Nodes(t.right) && s in h1 && t.node !in Nodes(t.right) && t.left.node !in Nodes(t.right)
    requires Nodes(t.right) <= Nodes(t) && t.left.node in Nodes(t) && t.node in Nodes(t) && t.node != t.left.node
    requires !c.Top? ==> c.node !in Nodes(t)
    requires h[t.node] == CellOf(t, Parent(c, null)) && h[t.left.node] == CellOf(t.left, t.node)
    requires v.right == RootOf(Plug(d, sr))
    ensures !c.Top? ==> c.node in h1
    ensures TakeOverSteps(t.node, s, t.left.node, Relinked(c, s, h1)[s := v])
         == Hung(t.left, s, Relinked(c, s, h1))[s := CellOf(Succeeded(t, d, s, sr), Parent(c, null))]
  {
  }

  /** The walk of `rb_erase` to the leftmost node of the right subtree. */
  method FindSuccessor(n: Node, root: Root, ghost c: Ctx, ghost t: Tree)
    returns (s: Node, ghost d: Ctx, ghost sc: Color, ghost sr: Tree)
    requires root.Holds(Plug(c, t)) && t.T? && t.node == n && t.left.T? && t.right.T?
    ensures HasSuccessor(t, d, s, sc, sr)
  {
    View(root, c, t);
    s := n.right;
    ghost var below, cur := InR(c, t.left, n, t.color), t.right;
    d := Top;
    View(root, below, cur);
    var left := s.left;
    while left != null
      invariant t.right == Plug(d, cur) && LeftSpine(d) && cur.T? && cur.node == s
      invariant root.Holds(Plug(Then(d, below), cur)) && left == RootOf(cur.left)
      decreases cur
    {
      d, cur := InL(d, s, cur.color, cur.right), cur.left;
      s := left;
      View(root, Then(d, below), cur);
      left := s.left;
    }
    sc, sr := cur.color, cur.right;
  }

  /** `rb_erase` for a node with two children, up to the rebalancing. */
  method EraseInner(n: Node, root: Root, ghost c: Ctx, ghost t: Tree)
    returns (child: Node?, parent: Node?, color: Color, ghost e: Ctx, ghost k: Tree)
    requires t.T? && t.node == n && root.Holds(Plug(c, t)) && t.left.T? && t.right.T?
    requires IsRedBlack(Plug(c, t))
    modifies root`node, Nodes(Plug(c, t))`left, Nodes(Plug(c, t))`right, Nodes(Plug(c, t))`parent,
      Nodes(Plug(c, t))`color
    ensures parent == Parent(e, null) && child == RootOf(k) && root.Holds(Plug(e, k))
    ensures InOrder(Plug(e, k)) == Without(InOrder(Plug(c, t)), n)
    ensures Nodes(Plug(e, k)) == Nodes(Plug(c, t)) - {n}
    ensures color.Red? ==> IsRedBlack(Plug(e, k))
    ensures color.Black? ==> Short(e, k)
  {
    ghost var S := Nodes(Plug(c, t));
    ghost var h, top := Snap(S), root.node;
    var s;
    ghost var d, sc, sr;
    s, d, sc, sr := FindSuccessor(n, root, c, t);
    SplitFromHolds(root, c, t);
    SuccessorCells(top, c, t, d, s, sc, sr, h);
    SuccessorStepsMeet(top, c, t, d, s, sc, sr, h);
    SucceededLinks(top, c, t, d, s, sc, sr, h);
    e, k := Then(d, InR(c, t.left, s, t.color)), sr;
    InnerOrder(c, t, d, s, sc, sr);
    InnerShape(c, t, d, s, sc, sr);
    InnerParent(d, InR(c, t.left, s, t.color), s);
    InnerHeap(n, s, root, c, t, d, sc, sr, S);
    child, parent, color := SpliceSuccessor(n, s, root, c, d, S);
    HoldsFromSplit(root, c, Succeeded(t, d, s, sr), S);
  }

  lemma {:induction false} InnerParent(d: Ctx, e: Ctx, s: Node)
    requires !e.Top? && e.node == s
    ensures Parent(Then(d, e), null) == Parent(d, s)
  {}

  lemma {:induction false} InnerHeap(n: Node, s: Node, root: Root, c: Ctx, t: Tree, d: Ctx, sc: Color, sr: Tree,
                                     S: set<Node>)
    requires Split(root.node, c, t, Snap(S)) && HasSuccessor(t, d, s, sc, sr) && t.node == n && S == Nodes(Plug(c, t))
    ensures n in S && s in S && n != s && n.parent == Parent(c, null)
    ensures t.right.T? && n.left == t.left.node && n.left in S && n.right == t.right.node && n.right in S &&
            n.right != n
    ensures s.right == RootOf(sr) && (sr.T? ==> sr.node in S) && s.color == sc && s.right != n
    ensures !c.Top? ==> c.node in S && c.node != n && c.node != s && (c.node.left == n <==> c.InL?)
    ensures d.Top? || (d.InL? && d.node in S && d.node != n)
    ensures s.parent == Parent(d, n)
  {
    SuccessorCells(root.node, c, t, d, s, sc, sr, Snap(S));
    assert Snap(S)[n].parent == n.parent && Snap(S)[s].right == s.right;
    assert !c.Top? ==> Snap(S)[c.node].left == c.node.left;
  }

  /** Putting the successor in the node's place takes the node out of the in-order sequence. */
  lemma {:induction false} InnerOrder(c: Ctx, t: Tree, d: Ctx, s: Node, sc: Color, sr: Tree)
    requires Distinct(Plug(c, t)) && HasSuccessor(t, d, s, sc, sr)
    ensures Plug(c, Succeeded(t, d, s, sr)) == Plug(Then(d, InR(c, t.left, s, t.color)), sr)
    ensures InOrder(Plug(c, Succeeded(t, d, s, sr))) == Without(InOrder(Plug(c, t)), t.node)
    ensures Nodes(Plug(c, Succeeded(t, d, s, sr))) == Nodes(Plug(c, t)) - {t.node}
  {
    DistinctPlug(c, t);
    SuccessorApart(t, d, s, sc, sr);
    PlugThen(d, InR(c, t.left, s, t.color), sr);
    assert InOrder(Succeeded(t, d, s, sr)) == InOrder(t.left) + InOrder(t.right);
    PlugWithout(c, t.left, t.node, t.color, t.right, Succeeded(t, d, s, sr));
  }

  /** Balance looks at colours, not at which nodes carry them. */
  lemma {:induction false} FitsSameColors(d: Ctx, e: Ctx, e': Ctx, h: nat, red: bool)
    requires !e.Top? && !e'.Top? && e.InR? && e'.InR?
    requires e.up == e'.up && e.left == e'.left && e.color == e'.color
    ensures Fits(Then(d, e), h, red) <==> Fits(Then(d, e'), h, red)
    ensures TopBlack(Then(d, e)) <==> TopBlack(Then(d, e'))
    ensures !Then(d, e).Top? && !Then(d, e').Top?
    ensures Then(d, e).up.Top? <==> Then(d, e').up.Top?
  {
    if !d.Top? {
      FitsSameColors(d.up, e, e', if d.color.Black? then h + 1 else h, d.color.Red?);
    }
  }

  lemma {:induction false} InnerShape(c: Ctx, t: Tree, d: Ctx, s: Node, sc: Color, sr: Tree)
    requires IsRedBlack(Plug(c, t)) && HasSuccessor(t, d, s, sc, sr)
    ensures
      var e := Then(d, InR(c, t.left, s, t.color));
      && (sc.Red? ==> IsRedBlack(Plug(e, sr)))
      && (sc.Black? ==> Short(e, sr))
  {
    var e0, e1 := InR(c, t.left, t.node, t.color), InR(c, t.left, s, t.color);
    var succ := T(Leaf, s, sc, sr);
    var f, e := Then(d, e0), Then(d, e1);
    PlugThen(d, e0, succ);
    BalancedPlug(f, succ);
    RootPlug(f, succ);
    FitsSameColors(d, e0, e1, Height(succ), RedRooted(succ));
    if sc.Red? {
      FitsBlack(e, 0);
      BalancedPlug(e, sr);
      RootPlug(e, sr);
    }
  }

  /** `rb_erase`: from a red-black tree to a red-black tree, taking exactly `node` out of the
      in-order sequence. */
  method Erase(node: Node, root: Root)
    requires root.Valid() && node in Nodes(root.tree)
    modifies root`node, root`tree, Nodes(root.tree)`left, Nodes(root.tree)`right, Nodes(root.tree)`parent,
      Nodes(root.tree)`color
    ensures root.Valid()
    ensures InOrder(root.tree) == Without(old(InOrder(root.tree)), node)
    ensures Nodes(root.tree) == old(Nodes(root.tree)) - {node}
  {
    hide Plug, InOrder, Balanced, Linked, Distinct, Without;
    ghost var c, l, col, r := Locate(root.tree, node);
    ghost var t := T(l, node, col, r);
    View(root, c, t);
    var child: Node?, parent: Node?, color: Color;
    ghost var e, k;
    if node.left == null {
      child := node.right;
      e, k := c, r;
      OuterShape(c, t, k);
      parent, color := EraseOuter(node, child, root, c, t, k);
    } else if node.right == null {
      child := node.left;
      e, k := c, l;
      OuterShape(c, t, k);
      parent, color := EraseOuter(node, child, root, c, t, k);
    } else {
      child, parent, color, e, k := EraseInner(node, root, c, t);
    }
    if color == Black {
      EraseColor(child, parent, root, e, k);
    } else {
      root.tree := Plug(e, k);
    }
  }

  // ---- In-order traversal (rbtree.c:358-369, 388-415) --------------------------------------

  /** The leftmost node below `n`. */
  method Leftmost(n: Node, root: Root, ghost c: Ctx, ghost t: Tree) returns (m: Node)
    requires root.Holds(Plug(c, t)) && t.T? && t.node == n
    ensures |InOrder(t)| > 0 && m == InOrder(t)[0]
  {
    m := n;
    ghost var d, cur := c, t;
    View(root, d, cur);
    while m.left != null
      invariant root.Holds(Plug(d, cur)) && cur.T? && cur.node == m && m.left == RootOf(cur.left)
      invariant |InOrder(cur)| > 0 && InOrder(cur)[0] == InOrder(t)[0] && |InOrder(t)| > 0
      decreases cur
    {
      d, cur := InL(d, m, cur.color, cur.right), cur.left;
      m := m.left;
      View(root, d, cur);
    }
  }

  method First(root: Root) returns (n: Node?)
    requires root.Valid()
    ensures n == if InOrder(root.tree) == [] then null else InOrder(root.tree)[0]
  {
    View(root, Top, root.tree);
    n := root.node;
    if n == null {
      return null;
    }
    n := Leftmost(n, root, Top, root.tree);
  }

  /** The element after each occurrence of `x`. */
  ghost predicate Successor(s: seq<Node>, x: Node, r: Node?) {
    forall i :: 0 <= i < |s| && s[i] == x ==> r == if i + 1 < |s| then s[i + 1] else null
  }

  lemma SuccessorMiddle(a: seq<Node>, x: Node, b: seq<Node>)
    requires NoDup(a + [x] + b)
    ensures Successor(a + [x] + b, x, if b == [] then null else b[0])
  {
    var s := a + [x] + b;
    assert s[|a|] == x;
    forall i | 0 <= i < |s| && s[i] == x ensures i == |a| {}
  }

  /** The first node after the hole of a context is the lowest one with the hole to its left. */
  method ClimbRight(n: Node, root: Root, ghost c: Ctx, ghost t: Tree) returns (m: Node?)
    requires root.Holds(Plug(c, t)) && t.T? && t.node == n
    ensures m == if After(c) == [] then null else After(c)[0]
  {
    var node := n;
    ghost var d, cur := c, t;
    View(root, d, cur);
    var parent := node.parent;
    while parent != null && node == parent.right
      invariant root.Holds(Plug(d, cur)) && cur.T? && cur.node == node && parent == Parent(d, null)
      invariant After(d) == After(c)
      decreases Depth(d)
    {
      View(root, d, cur);
      assert d.InR?;
      GrownPlug(d, cur);
      cur, d := Grown(d, cur), d.up;
      node := parent;
      View(root, d, cur);
      parent := node.parent;
    }
    View(root, d, cur);
    m := parent;
  }

  method Next(node: Node?, root: Root) returns (n: Node?)
    requires root.Valid() && (node != null ==> node in Nodes(root.tree))
    ensures node == null ==> n == null
    ensures node != null ==> Successor(InOrder(root.tree), node, n)
  {
    if node == null {
      return null;
    }
    ghost var c, l, col, r := Locate(root.tree, node);
    ghost var t := T(l, node, col, r);
    View(root, c, t);
    InOrderPlug(c, t);
    DistinctIsNoDup(root.tree);
    ghost var a, b := Before(c) + InOrder(l), InOrder(r) + After(c);
    Around(Before(c), InOrder(l), [node], InOrder(r), After(c));
    SuccessorMiddle(a, node, b);
    ParentElsewhere(root, c, t);
    if node.parent == node {
      return null;
    }
    if node.right != null {
      View(root, InR(c, l, node, col), r);
      n := Leftmost(node.right, root, InR(c, l, node, col), r);
    } else {
      n := ClimbRight(node, root, c, t);
    }
  }

  lemma {:induction false} ParentElsewhere(root: Root, c: Ctx, t: Tree)
    requires root.Holds(Plug(c, t)) && t.T?
    ensures t.node.parent == Parent(c, null) != t.node
  {
    View(root, c, t);
    SplitFromHolds(root, c, t);
    assert !c.Top? ==> c.node in CtxNodes(c);
  }
}
