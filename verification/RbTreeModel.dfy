/** The abstract side of `server/util/rbtree.c`: node objects, the tree they represent, and
    one-hole contexts (the path from a node up to the root).

    A node is the C `struct rb_node` together with the key of the `hashnode` around it; the parent
    pointer and the colour, packed into one word in C, are two fields here. */
module RbTreeModel {
  import opened Numbers
  import opened Sequences

  datatype Color = Red | Black

  class Node {
    var parent: Node?
    var color: Color
    var right: Node?
    var left: Node?
    var key: nat

    constructor (key: nat)
      ensures this.key == key
    {
      parent, color, right, left := null, Red, null, null;
      this.key := key;
    }
  }

  /** The tree a pointer graph represents. */
  datatype Tree = Leaf | T(left: Tree, node: Node, color: Color, right: Tree)

  /** A tree with one hole, read from the hole upwards: the hole is the left (`InL`) or the right
      (`InR`) child of `node`. */
  datatype Ctx =
    | Top
    | InL(up: Ctx, node: Node, color: Color, right: Tree)
    | InR(up: Ctx, left: Tree, node: Node, color: Color)

  ghost function RootOf(t: Tree): Node? {
    if t.Leaf? then null else t.node
  }

  ghost function Parent(c: Ctx, top: Node?): Node? {
    if c.Top? then top else c.node
  }

  ghost function Nodes(t: Tree): set<Node> {
    if t.Leaf? then {} else Nodes(t.left) + {t.node} + Nodes(t.right)
  }

  ghost function CtxNodes(c: Ctx): set<Node> {
    match c
    case Top => {}
    case InL(up, n, _, r) => CtxNodes(up) + {n} + Nodes(r)
    case InR(up, l, n, _) => CtxNodes(up) + {n} + Nodes(l)
  }

  ghost function Plug(c: Ctx, t: Tree): Tree {
    match c
    case Top => t
    case InL(up, n, col, r) => Plug(up, T(t, n, col, r))
    case InR(up, l, n, col) => Plug(up, T(l, n, col, t))
  }

  ghost function Depth(c: Ctx): nat {
    if c.Top? then 0 else 1 + Depth(c.up)
  }

  // ---- Order -------------------------------------------------------------------------------

  ghost function InOrder(t: Tree): seq<Node> {
    if t.Leaf? then [] else InOrder(t.left) + [t.node] + InOrder(t.right)
  }

  ghost function Before(c: Ctx): seq<Node> {
    match c
    case Top => []
    case InL(up, _, _, _) => Before(up)
    case InR(up, l, n, _) => Before(up) + InOrder(l) + [n]
  }

  ghost function After(c: Ctx): seq<Node> {
    match c
    case Top => []
    case InL(up, n, _, r) => [n] + InOrder(r) + After(up)
    case InR(up, _, _, _) => After(up)
  }

  lemma {:induction false} InOrderPlug(c: Ctx, t: Tree)
    ensures InOrder(Plug(c, t)) == Before(c) + InOrder(t) + After(c)
  {
    match c
    case Top =>
    case InL(up, n, col, r) =>
      InOrderPlug(up, T(t, n, col, r));
      Around(Before(up), InOrder(t), [n], InOrder(r), After(up));
    case InR(up, l, n, col) =>
      InOrderPlug(up, T(l, n, col, t));
      Around(Before(up), InOrder(l), [n], InOrder(t), After(up));
  }

  lemma {:induction false} NodesInOrder(t: Tree)
    ensures Nodes(t) == (set n | n in InOrder(t))
  {
    if t.T? {
      NodesInOrder(t.left);
      NodesInOrder(t.right);
    }
  }

  lemma {:induction false} NodesPlug(c: Ctx, t: Tree)
    ensures Nodes(Plug(c, t)) == CtxNodes(c) + Nodes(t)
  {
    match c
    case Top =>
    case InL(up, n, col, r) => NodesPlug(up, T(t, n, col, r));
    case InR(up, l, n, col) => NodesPlug(up, T(l, n, col, t));
  }

  // ---- Separation --------------------------------------------------------------------------

  /** No node occurs twice. */
  ghost predicate Distinct(t: Tree) {
    t.T? ==>
      && t.node !in Nodes(t.left) && t.node !in Nodes(t.right)
      && Nodes(t.left) !! Nodes(t.right)
      && Distinct(t.left) && Distinct(t.right)
  }

  ghost predicate CtxDistinct(c: Ctx) {
    match c
    case Top => true
    case InL(up, n, _, r) =>
      n !in CtxNodes(up) && n !in Nodes(r) && CtxNodes(up) !! Nodes(r) && Distinct(r) && CtxDistinct(up)
    case InR(up, l, n, _) =>
      n !in CtxNodes(up) && n !in Nodes(l) && CtxNodes(up) !! Nodes(l) && Distinct(l) && CtxDistinct(up)
  }

  ghost predicate Apart(c: Ctx, t: Tree) {
    CtxDistinct(c) && Distinct(t) && CtxNodes(c) !! Nodes(t)
  }

  lemma {:induction false} DistinctPlug(c: Ctx, t: Tree)
    ensures Distinct(Plug(c, t)) <==> Apart(c, t)
  {
    match c
    case Top =>
    case InL(up, n, col, r) => DistinctPlug(up, T(t, n, col, r));
    case InR(up, l, n, col) => DistinctPlug(up, T(l, n, col, t));
  }

  ghost predicate NoDup<X>(s: seq<X>) {
    forall i, j :: 0 <= i < j < |s| ==> s[i] != s[j]
  }

  lemma NoDupConcat<X>(a: seq<X>, b: seq<X>)
    ensures NoDup(a + b) <==> NoDup(a) && NoDup(b) && (forall x :: x in a ==> x !in b)
  {
    var s := a + b;
    if NoDup(s) {
      forall i, j | 0 <= i < j < |a| ensures a[i] != a[j] { assert s[i] != s[j]; }
      forall i, j | 0 <= i < j < |b| ensures b[i] != b[j] { assert s[|a| + i] != s[|a| + j]; }
      forall x | x in a ensures x !in b {
        var i :| 0 <= i < |a| && a[i] == x;
        forall j | 0 <= j < |b| ensures b[j] != x { assert s[i] != s[|a| + j]; }
      }
    }
    if NoDup(a) && NoDup(b) && (forall x :: x in a ==> x !in b) {
      forall i, j | 0 <= i < j < |s| ensures s[i] != s[j] {
        if i < |a| <= j { assert a[i] in a && b[j - |a|] in b; }
      }
    }
  }

  lemma NoDupAround<X>(a: seq<X>, x: X, b: seq<X>)
    ensures NoDup(a + [x] + b)
       <==> NoDup(a) && NoDup(b) && x !in a && x !in b && (forall y :: y in a ==> y !in b)
  {
    NoDupConcat(a, [x]);
    NoDupConcat(a + [x], b);
    assert x in [x];
    assert forall y :: y in a + [x] <==> y in a || y == x;
  }

  lemma {:induction false} DistinctIsNoDup(t: Tree)
    ensures Distinct(t) <==> NoDup(InOrder(t))
  {
    if t.T? {
      DistinctIsNoDup(t.left);
      DistinctIsNoDup(t.right);
      NodesInOrder(t.left);
      NodesInOrder(t.right);
      NoDupAround(InOrder(t.left), t.node, InOrder(t.right));
      if Nodes(t.left) !! Nodes(t.right) {
        forall y | y in InOrder(t.left) ensures y !in InOrder(t.right) {
          assert y in Nodes(t.left);
        }
      } else {
        var y :| y in Nodes(t.left) && y in Nodes(t.right);
        assert y in InOrder(t.left) && y in InOrder(t.right);
      }
    }
  }

  // ---- The pointer graph -------------------------------------------------------------------

  /** The fields of one node, and of a set of nodes. */
  datatype Cell = Cell(parent: Node?, color: Color, right: Node?, left: Node?)

  type Cells = map<Node, Cell>

  ghost function Snap(S: set<Node>): Cells
    reads S
  {
    map n | n in S :: Cell(n.parent, n.color, n.right, n.left)
  }

  /** The cells `h` spell out `t`, hanging below `p`. */
  ghost predicate Linked(t: Tree, p: Node?, h: Cells) {
    t.T? ==>
      && t.node in h && h[t.node] == Cell(p, t.color, RootOf(t.right), RootOf(t.left))
      && Linked(t.left, t.node, h) && Linked(t.right, t.node, h)
  }

  /** The cells `h` spell out `c` with `hole` at the hole; the outermost node of the whole is
      `top`, and hangs below `p`. */
  ghost predicate CtxLinked(c: Ctx, hole: Node?, p: Node?, top: Node?, h: Cells) {
    match c
    case Top => hole == top
    case InL(up, n, col, r) =>
      && n in h && h[n] == Cell(Parent(up, p), col, RootOf(r), hole)
      && Linked(r, n, h) && CtxLinked(up, n, p, top, h)
    case InR(up, l, n, col) =>
      && n in h && h[n] == Cell(Parent(up, p), col, hole, RootOf(l))
      && Linked(l, n, h) && CtxLinked(up, n, p, top, h)
  }

  /** Cells off the tree do not matter. */
  lemma {:induction false} LinkedFrame(t: Tree, p: Node?, h: Cells, h': Cells)
    requires Linked(t, p, h)
    requires forall n :: n in Nodes(t) && n in h ==> n in h' && h'[n] == h[n]
    ensures Linked(t, p, h')
  {
    if t.T? {
      LinkedFrame(t.left, t.node, h, h');
      LinkedFrame(t.right, t.node, h, h');
    }
  }

  lemma {:induction false} CtxLinkedFrame(c: Ctx, hole: Node?, p: Node?, top: Node?, h: Cells, h': Cells)
    requires CtxLinked(c, hole, p, top, h)
    requires forall n :: n in CtxNodes(c) && n in h ==> n in h' && h'[n] == h[n]
    ensures CtxLinked(c, hole, p, top, h')
  {
    match c
    case Top =>
    case InL(up, n, _, r) =>
      LinkedFrame(r, n, h, h');
      CtxLinkedFrame(up, n, p, top, h, h');
    case InR(up, l, n, _) =>
      LinkedFrame(l, n, h, h');
      CtxLinkedFrame(up, n, p, top, h, h');
  }

  lemma {:induction false} LinkedPlug(c: Ctx, t: Tree, p: Node?, top: Node?, h: Cells)
    ensures Linked(Plug(c, t), p, h) && RootOf(Plug(c, t)) == top
       <==> CtxLinked(c, RootOf(t), p, top, h) && Linked(t, Parent(c, p), h)
  {
    match c
    case Top =>
    case InL(up, n, col, r) => LinkedPlug(up, T(t, n, col, r), p, top, h);
    case InR(up, l, n, col) => LinkedPlug(up, T(l, n, col, t), p, top, h);
  }

  lemma {:induction false} TopInCtx(c: Ctx, hole: Node?, p: Node?, top: Node?, h: Cells)
    requires CtxLinked(c, hole, p, top, h) && !c.Top?
    ensures top != null && top in CtxNodes(c)
  {
    if !c.up.Top? {
      TopInCtx(c.up, c.node, p, top, h);
    }
  }

  /** The path to a node of a tree. */
  lemma {:induction false} Locate(t: Tree, n: Node) returns (c: Ctx, l: Tree, col: Color, r: Tree)
    requires n in Nodes(t)
    ensures Plug(c, T(l, n, col, r)) == t
  {
    if n == t.node {
      c, l, col, r := Top, t.left, t.color, t.right;
    } else if n in Nodes(t.left) {
      c, l, col, r := Locate(t.left, n);
      PlugThen(c, InL(Top, t.node, t.color, t.right), T(l, n, col, r));
      c := Then(c, InL(Top, t.node, t.color, t.right));
    } else {
      c, l, col, r := Locate(t.right, n);
      PlugThen(c, InR(Top, t.left, t.node, t.color), T(l, n, col, r));
      c := Then(c, InR(Top, t.left, t.node, t.color));
    }
  }

  /** The inner context `c` placed in the hole of the outer context `d`. */
  ghost function Then(c: Ctx, d: Ctx): Ctx {
    match c
    case Top => d
    case InL(up, n, col, r) => InL(Then(up, d), n, col, r)
    case InR(up, l, n, col) => InR(Then(up, d), l, n, col)
  }

  lemma {:induction false} PlugThen(c: Ctx, d: Ctx, t: Tree)
    ensures Plug(Then(c, d), t) == Plug(d, Plug(c, t))
  {
    match c
    case Top =>
    case InL(up, n, col, r) => PlugThen(up, d, T(t, n, col, r));
    case InR(up, l, n, col) => PlugThen(up, d, T(l, n, col, t));
  }

  // ---- Red-black balance -------------------------------------------------------------------

  ghost predicate RedRooted(t: Tree) {
    t.T? && t.color.Red?
  }

  /** Black nodes on the leftmost path. */
  ghost function Height(t: Tree): nat {
    if t.Leaf? then 0 else Height(t.left) + if t.color.Black? then 1 else 0
  }

  /** Equal black heights everywhere and no red node with a red child. */
  ghost predicate Balanced(t: Tree) {
    t.T? ==>
      && Balanced(t.left) && Balanced(t.right) && Height(t.left) == Height(t.right)
      && (t.color.Red? ==> !RedRooted(t.left) && !RedRooted(t.right))
  }

  /** Balanced but for the colour of the root. */
  ghost predicate BalancedBelow(t: Tree) {
    t.T? ==> Balanced(t.left) && Balanced(t.right) && Height(t.left) == Height(t.right)
  }

  ghost predicate IsRedBlack(t: Tree) {
    Balanced(t) && !RedRooted(t)
  }

  ghost function Blackened(t: Tree): Tree {
    if t.Leaf? then t else t.(color := Black)
  }

  /** The context is balanced around a tree of black height `h`, red-rooted if `red`. */
  ghost predicate Fits(c: Ctx, h: nat, red: bool) {
    match c
    case Top => true
    case InL(up, _, col, r) =>
      && Balanced(r) && Height(r) == h
      && (col.Red? ==> !red && !RedRooted(r))
      && Fits(up, if col.Black? then h + 1 else h, col.Red?)
    case InR(up, l, _, col) =>
      && Balanced(l) && Height(l) == h
      && (col.Red? ==> !red && !RedRooted(l))
      && Fits(up, if col.Black? then h + 1 else h, col.Red?)
  }

  /** The outermost node of the context is black. */
  ghost predicate TopBlack(c: Ctx) {
    c.Top? || (if c.up.Top? then c.color.Black? else TopBlack(c.up))
  }

  lemma {:induction false} BalancedPlug(c: Ctx, t: Tree)
    ensures Balanced(Plug(c, t)) <==> Balanced(t) && Fits(c, Height(t), RedRooted(t))
  {
    match c
    case Top =>
    case InL(up, n, col, r) =>
      var u := T(t, n, col, r);
      BalancedPlug(up, u);
      if !(Balanced(r) && Height(r) == Height(t)) && Balanced(t) { assert !Balanced(u); }
    case InR(up, l, n, col) =>
      var u := T(l, n, col, t);
      BalancedPlug(up, u);
  }

  lemma {:induction false} RootPlug(c: Ctx, t: Tree)
    ensures c.Top? ==> Plug(c, t) == t
    ensures !c.Top? ==> (RedRooted(Plug(c, t)) <==> !TopBlack(c))
  {
    match c
    case Top =>
    case InL(up, n, col, r) => RootPlug(up, T(t, n, col, r));
    case InR(up, l, n, col) => RootPlug(up, T(l, n, col, t));
  }

  /** A context that takes a red root takes a black one of the same height. */
  lemma {:induction false} FitsBlack(c: Ctx, h: nat)
    requires Fits(c, h, true)
    ensures Fits(c, h, false)
  {}

  // ---- Height against size -----------------------------------------------------------------

  ghost function Levels(t: Tree): nat {
    if t.Leaf? then 0
    else 1 + if Levels(t.left) > Levels(t.right) then Levels(t.left) else Levels(t.right)
  }

  lemma {:induction false} SizeFromHeight(t: Tree)
    requires Balanced(t)
    ensures Pow2(Height(t)) <= |InOrder(t)| + 1
  {
    if t.T? {
      SizeFromHeight(t.left);
      SizeFromHeight(t.right);
    }
  }

  lemma {:induction false} LevelsFromHeight(t: Tree)
    requires Balanced(t)
    ensures Levels(t) <= 2 * Height(t) + if RedRooted(t) then 1 else 0
  {
    if t.T? {
      LevelsFromHeight(t.left);
      LevelsFromHeight(t.right);
    }
  }

  /** At most 2 * log2(n + 1) levels for n nodes. */
  lemma {:induction false} LevelBound(t: Tree)
    requires IsRedBlack(t)
    ensures Pow2(Levels(t)) <= (|InOrder(t)| + 1) * (|InOrder(t)| + 1)
  {
    var h, m := Height(t), |InOrder(t)| + 1;
    LevelsFromHeight(t);
    SizeFromHeight(t);
    Pow2Mono(Levels(t), h + h);
    Pow2Add(h, h);
    SquareMono(Pow2(h), m);
  }

  lemma SquareMono(a: nat, b: nat)
    requires a <= b
    ensures a * a <= b * b
  {
    assert a * a <= a * b <= b * b;
  }
}
