/** The shape of a red-black tree, seen as a value.

    The nodes of `AK/RedBlackTree.h` are heap objects; a `Tree` is the ghost picture of the
    subtree below a node, and a `Ctx` is the picture of everything above and beside it. The
    fix-up loops walk up the tree, so their invariants speak about a subtree in its context.
    Colours are repeated in the picture, which makes every balance argument a statement about
    values that needs no heap. */
module RedBlackShape {
  import Bits

  datatype Color = Red | Black

  /** One tree node. The key never changes after construction. */
  class Node {
    var left: Node?
    var right: Node?
    var parent: Node?
    var color: Color
    const key: int

    constructor (key: int)
      ensures left == null && right == null && parent == null
      ensures color == Red && this.key == key
    {
      this.key := key;
      left, right, parent, color := null, null, null, Red;
    }
  }

  datatype Tree = Nil | N(l: Tree, n: Node, c: Color, r: Tree)

  /** A tree with a hole: the path from the hole up to the root with the siblings beside it. */
  datatype Ctx =
    | Top
    | InLeft(up: Ctx, n: Node, c: Color, r: Tree)   // the hole is the left child of n
    | InRight(up: Ctx, l: Tree, n: Node, c: Color)  // the hole is the right child of n

  ghost function RootOf(t: Tree): Node? {
    if t.Nil? then null else t.n
  }

  /** The node whose child link is the hole, or null when the hole is at the top. */
  ghost function Holder(c: Ctx): Node? {
    if c.Top? then null else c.n
  }

  ghost function Plug(c: Ctx, t: Tree): Tree {
    match c
    case Top => t
    case InLeft(up, n, k, r) => Plug(up, N(t, n, k, r))
    case InRight(up, l, n, k) => Plug(up, N(l, n, k, t))
  }

  /** The context `d` placed inside the hole of `outer`. */
  ghost function Compose(d: Ctx, outer: Ctx): Ctx {
    match d
    case Top => outer
    case InLeft(up, n, k, r) => InLeft(Compose(up, outer), n, k, r)
    case InRight(up, l, n, k) => InRight(Compose(up, outer), l, n, k)
  }

  lemma {:induction false} PlugCompose(d: Ctx, outer: Ctx, t: Tree)
    ensures Plug(Compose(d, outer), t) == Plug(outer, Plug(d, t))
  {
    match d
    case Top =>
    case InLeft(up, n, k, r) => PlugCompose(up, outer, N(t, n, k, r));
    case InRight(up, l, n, k) => PlugCompose(up, outer, N(l, n, k, t));
  }

  ghost function Depth(c: Ctx): nat {
    if c.Top? then 0 else 1 + Depth(c.up)
  }

  // ---------- nodes and order ----------

  ghost function Nodes(t: Tree): set<Node> {
    if t.Nil? then {} else {t.n} + Nodes(t.l) + Nodes(t.r)
  }

  ghost function CtxNodes(c: Ctx): set<Node> {
    match c
    case Top => {}
    case InLeft(up, n, _, r) => {n} + Nodes(r) + CtxNodes(up)
    case InRight(up, l, n, _) => {n} + Nodes(l) + CtxNodes(up)
  }

  ghost predicate Distinct(t: Tree) {
    t.N? ==>
      && Distinct(t.l) && Distinct(t.r)
      && t.n !in Nodes(t.l) && t.n !in Nodes(t.r) && Nodes(t.l) !! Nodes(t.r)
  }

  ghost predicate CtxDistinct(c: Ctx) {
    match c
    case Top => true
    case InLeft(up, n, _, r) =>
      && Distinct(r) && CtxDistinct(up)
      && n !in Nodes(r) && n !in CtxNodes(up) && Nodes(r) !! CtxNodes(up)
    case InRight(up, l, n, _) =>
      && Distinct(l) && CtxDistinct(up)
      && n !in Nodes(l) && n !in CtxNodes(up) && Nodes(l) !! CtxNodes(up)
  }

  lemma {:induction false} PlugNodes(c: Ctx, t: Tree)
    ensures Nodes(Plug(c, t)) == CtxNodes(c) + Nodes(t)
    ensures Distinct(Plug(c, t)) <==> Distinct(t) && CtxDistinct(c) && Nodes(t) !! CtxNodes(c)
  {
    match c
    case Top =>
    case InLeft(up, n, k, r) => PlugNodes(up, N(t, n, k, r));
    case InRight(up, l, n, k) => PlugNodes(up, N(l, n, k, t));
  }

  lemma {:induction false} ComposeNodes(d: Ctx, outer: Ctx)
    ensures CtxNodes(Compose(d, outer)) == CtxNodes(d) + CtxNodes(outer)
    ensures CtxDistinct(Compose(d, outer)) <==>
            CtxDistinct(d) && CtxDistinct(outer) && CtxNodes(d) !! CtxNodes(outer)
  {
    match d
    case Top =>
    case InLeft(up, _, _, _) => ComposeNodes(up, outer);
    case InRight(up, _, _, _) => ComposeNodes(up, outer);
  }

  ghost function Inorder(t: Tree): seq<Node> {
    if t.Nil? then [] else Inorder(t.l) + [t.n] + Inorder(t.r)
  }

  /** What comes before the hole, in key order. */
  ghost function Before(c: Ctx): seq<Node> {
    match c
    case Top => []
    case InLeft(up, _, _, _) => Before(up)
    case InRight(up, l, n, _) => Before(up) + Inorder(l) + [n]
  }

  /** What comes after the hole, in key order. */
  ghost function After(c: Ctx): seq<Node> {
    match c
    case Top => []
    case InLeft(up, n, _, r) => [n] + Inorder(r) + After(up)
    case InRight(up, _, _, _) => After(up)
  }

  lemma {:induction false} PlugInorder(c: Ctx, t: Tree)
    ensures Inorder(Plug(c, t)) == Before(c) + Inorder(t) + After(c)
  {
    match c
    case Top =>
    case InLeft(up, n, k, r) => PlugInorder(up, N(t, n, k, r));
    case InRight(up, l, n, k) => PlugInorder(up, N(l, n, k, t));
  }

  lemma {:induction false} ComposeOrder(d: Ctx, outer: Ctx)
    ensures Before(Compose(d, outer)) == Before(outer) + Before(d)
    ensures After(Compose(d, outer)) == After(d) + After(outer)
  {
    hide Inorder;
    match d
    case Top =>
      assert Before(outer) + [] == Before(outer) && [] + After(outer) == After(outer);
    case InLeft(up, n, _, r) =>
      ComposeOrder(up, outer);
      assert [n] + Inorder(r) + (After(up) + After(outer)) == [n] + Inorder(r) + After(up) + After(outer);
    case InRight(up, l, n, _) =>
      ComposeOrder(up, outer);
      assert Before(outer) + Before(up) + Inorder(l) + [n] == Before(outer) + (Before(up) + Inorder(l) + [n]);
  }

  lemma {:induction false} InorderNodes(t: Tree)
    ensures forall x :: x in Inorder(t) <==> x in Nodes(t)
  {
    if t.N? {
      InorderNodes(t.l);
      InorderNodes(t.r);
    }
  }

  /** Every node of the tree has a context that leads to it. */
  lemma {:induction false} FocusOn(c: Ctx, t: Tree, x: Node) returns (fc: Ctx, ft: Tree)
    requires x in Nodes(t)
    ensures Plug(fc, ft) == Plug(c, t) && ft.N? && ft.n == x
    decreases t
  {
    if t.n == x {
      fc, ft := c, t;
    } else if x in Nodes(t.l) {
      fc, ft := FocusOn(InLeft(c, t.n, t.c, t.r), t.l, x);
    } else {
      fc, ft := FocusOn(InRight(c, t.l, t.n, t.c), t.r, x);
    }
  }

  // ---------- links ----------

  /** The fields of one node, and of all nodes at some moment. */
  datatype Links = Links(left: Node?, right: Node?, parent: Node?, color: Color)

  type Heap = map<Node, Links>

  ghost function LinksOf(n: Node): Links
    reads n
  {
    Links(n.left, n.right, n.parent, n.color)
  }

  ghost function Snapshot(s: set<Node>): Heap
    reads s
  {
    map n | n in s :: LinksOf(n)
  }

  /** The heap holds the subtree `t`, hanging below `p`. */
  ghost predicate Shape(t: Tree, p: Node?, h: Heap) {
    t.N? ==>
      && t.n in h && h[t.n] == Links(RootOf(t.l), RootOf(t.r), p, t.c)
      && Shape(t.l, t.n, h) && Shape(t.r, t.n, h)
  }

  /** The heap holds the context `c`, and the link that forms the hole leads to `hole`. */
  ghost predicate CtxShape(c: Ctx, hole: Node?, h: Heap) {
    match c
    case Top => true
    case InLeft(up, n, k, r) =>
      && n in h && h[n] == Links(hole, RootOf(r), Holder(up), k)
      && Shape(r, n, h) && CtxShape(up, n, h)
    case InRight(up, l, n, k) =>
      && n in h && h[n] == Links(RootOf(l), hole, Holder(up), k)
      && Shape(l, n, h) && CtxShape(up, n, h)
  }

  ghost predicate Separate(c: Ctx, t: Tree) {
    Distinct(t) && CtxDistinct(c) && Nodes(t) !! CtxNodes(c)
  }

  ghost predicate Same(h: Heap, h': Heap, s: set<Node>) {
    forall n :: n in s && n in h ==> n in h' && h'[n] == h[n]
  }

  lemma {:induction false} ShapeFrame(t: Tree, p: Node?, h: Heap, h': Heap)
    requires Shape(t, p, h) && Same(h, h', Nodes(t))
    ensures Shape(t, p, h')
  {
    if t.N? {
      ShapeFrame(t.l, t.n, h, h');
      ShapeFrame(t.r, t.n, h, h');
    }
  }

  lemma {:induction false} CtxFrame(c: Ctx, hole: Node?, h: Heap, h': Heap)
    requires CtxShape(c, hole, h) && Same(h, h', CtxNodes(c))
    ensures CtxShape(c, hole, h')
  {
    match c
    case Top =>
    case InLeft(up, n, _, r) =>
      ShapeFrame(r, n, h, h');
      CtxFrame(up, n, h, h');
    case InRight(up, l, n, _) =>
      ShapeFrame(l, n, h, h');
      CtxFrame(up, n, h, h');
  }

  /** Hanging a subtree below another parent is a change of one link. */
  lemma {:induction false} Reparent(t: Tree, p: Node?, q: Node?, h: Heap, h': Heap)
    requires Shape(t, p, h) && Distinct(t)
    requires t.N? ==> t.n in h' && h'[t.n] == Links(RootOf(t.l), RootOf(t.r), q, t.c)
    requires t.N? ==> Same(h, h', Nodes(t) - {t.n})
    ensures Shape(t, q, h')
  {
    if t.N? {
      ShapeFrame(t.l, t.n, h, h');
      ShapeFrame(t.r, t.n, h, h');
    }
  }

  /** Pointing the hole of a context elsewhere is a change of one link. */
  lemma {:induction false} Redirect(c: Ctx, x: Node?, y: Node?, h: Heap, h': Heap)
    requires CtxShape(c, x, h) && CtxDistinct(c)
    requires c.InLeft? ==> c.n in h' && h'[c.n] == Links(y, RootOf(c.r), Holder(c.up), c.c)
    requires c.InRight? ==> c.n in h' && h'[c.n] == Links(RootOf(c.l), y, Holder(c.up), c.c)
    requires !c.Top? ==> Same(h, h', CtxNodes(c) - {c.n})
    ensures CtxShape(c, y, h')
  {
    match c
    case Top =>
    case InLeft(up, n, _, r) =>
      ShapeFrame(r, n, h, h');
      CtxFrame(up, n, h, h');
    case InRight(up, l, n, _) =>
      ShapeFrame(l, n, h, h');
      CtxFrame(up, n, h, h');
  }

  /** The topmost node of a context whose hole leads to `hole`. */
  ghost function TopOf(c: Ctx, hole: Node?): Node? {
    if c.Top? then hole else TopOf(c.up, c.n)
  }

  lemma {:induction false} TopIsAbove(c: Ctx, hole: Node?)
    requires !c.Top?
    ensures TopOf(c, hole) != null && TopOf(c, hole) in CtxNodes(c)
  {
    if !c.up.Top? {
      TopIsAbove(c.up, c.n);
    }
  }

  /** A subtree in its context is the same as the whole tree. */
  lemma {:induction false} PlugShape(c: Ctx, t: Tree, h: Heap)
    ensures Shape(Plug(c, t), null, h) <==> Shape(t, Holder(c), h) && CtxShape(c, RootOf(t), h)
    ensures RootOf(Plug(c, t)) == TopOf(c, RootOf(t))
  {
    match c
    case Top =>
    case InLeft(up, n, k, r) => PlugShape(up, N(t, n, k, r), h);
    case InRight(up, l, n, k) => PlugShape(up, N(l, n, k, t), h);
  }

  /** The heap `h` with the root link `root` is the tree `t` in the context `c`. */
  ghost predicate IsTree(c: Ctx, t: Tree, root: Node?, h: Heap) {
    && Separate(c, t)
    && root == TopOf(c, RootOf(t))
    && Shape(t, Holder(c), h) && CtxShape(c, RootOf(t), h)
  }

  lemma {:induction false} LeafIsTree(c: Ctx, t: Tree, root: Node?, h: Heap)
    requires t.N? && t.l.Nil? && t.r.Nil? && t.n in h && h[t.n] == Links(null, null, Holder(c), t.c)
    requires CtxShape(c, t.n, h) && CtxDistinct(c) && t.n !in CtxNodes(c) && root == TopOf(c, t.n)
    ensures IsTree(c, t, root, h) && Nodes(t) == {t.n} && Inorder(t) == [t.n]
  {
  }

  // ---------- rotations ----------

  ghost function RotatedLeft(t: Tree): Tree
    requires t.N? && t.r.N?
  {
    N(N(t.l, t.n, t.c, t.r.l), t.r.n, t.r.c, t.r.r)
  }

  ghost function RotatedRight(t: Tree): Tree
    requires t.N? && t.l.N?
  {
    N(t.l.l, t.l.n, t.l.c, N(t.l.r, t.n, t.c, t.r))
  }

  lemma {:induction false} RotateLeftShape(t: Tree, p: Node?, h: Heap, h': Heap)
    requires t.N? && t.r.N? && Distinct(t) && Shape(t, p, h)
    requires {t.n, t.r.n} <= h'.Keys
    requires h'[t.n] == Links(RootOf(t.l), RootOf(t.r.l), t.r.n, t.c)
    requires h'[t.r.n] == Links(t.n, RootOf(t.r.r), p, t.r.c)
    requires t.r.l.N? ==>
               t.r.l.n in h' && h'[t.r.l.n] == Links(RootOf(t.r.l.l), RootOf(t.r.l.r), t.n, t.r.l.c)
    requires forall n :: n in Nodes(t) && n != t.n && n != t.r.n && n != RootOf(t.r.l) && n in h ==> n in h' && h'[n] == h[n]
    ensures Shape(RotatedLeft(t), p, h')
    ensures Nodes(RotatedLeft(t)) == Nodes(t) && Distinct(RotatedLeft(t))
  {
    Reparent(t.r.l, t.r.n, t.n, h, h');
    ShapeFrame(t.l, t.n, h, h');
    ShapeFrame(t.r.r, t.r.n, h, h');
  }

  lemma {:induction false} RotateRightShape(t: Tree, p: Node?, h: Heap, h': Heap)
    requires t.N? && t.l.N? && Distinct(t) && Shape(t, p, h)
    requires {t.n, t.l.n} <= h'.Keys
    requires h'[t.n] == Links(RootOf(t.l.r), RootOf(t.r), t.l.n, t.c)
    requires h'[t.l.n] == Links(RootOf(t.l.l), t.n, p, t.l.c)
    requires t.l.r.N? ==>
               t.l.r.n in h' && h'[t.l.r.n] == Links(RootOf(t.l.r.l), RootOf(t.l.r.r), t.n, t.l.r.c)
    requires forall n :: n in Nodes(t) && n != t.n && n != t.l.n && n != RootOf(t.l.r) && n in h ==> n in h' && h'[n] == h[n]
    ensures Shape(RotatedRight(t), p, h')
    ensures Nodes(RotatedRight(t)) == Nodes(t) && Distinct(RotatedRight(t))
  {
    Reparent(t.l.r, t.l.n, t.n, h, h');
    ShapeFrame(t.l.l, t.l.n, h, h');
    ShapeFrame(t.r, t.n, h, h');
  }

  // ---------- balance ----------

  ghost function ColorOf(t: Tree): Color {
    if t.Nil? then Black else t.c
  }

  ghost function Weight(c: Color): nat {
    if c == Black then 1 else 0
  }

  ghost function BlackHeight(t: Tree): nat {
    if t.Nil? then 0 else BlackHeight(t.l) + Weight(t.c)
  }

  /** No red node has a red child and all paths down carry the same number of black nodes. */
  ghost predicate Balanced(t: Tree) {
    t.N? ==>
      && Balanced(t.l) && Balanced(t.r) && BlackHeight(t.l) == BlackHeight(t.r)
      && (t.c == Red ==> ColorOf(t.l) == Black && ColorOf(t.r) == Black)
  }

  /** A red-black tree: balanced, with a black root. */
  ghost predicate RedBlack(t: Tree) {
    Balanced(t) && ColorOf(t) == Black
  }

  /** The colour above the hole. The top counts as red: only a black tree may be put there. */
  ghost function Above(c: Ctx): Color {
    if c.Top? then Red else c.c
  }

  /** The context is balanced around a hole of black height `h`. */
  ghost predicate CtxBalanced(c: Ctx, h: nat) {
    match c
    case Top => true
    case InLeft(up, _, k, r) =>
      && Balanced(r) && BlackHeight(r) == h
      && (k == Red ==> ColorOf(r) == Black && Above(up) == Black)
      && CtxBalanced(up, h + Weight(k))
    case InRight(up, l, _, k) =>
      && Balanced(l) && BlackHeight(l) == h
      && (k == Red ==> ColorOf(l) == Black && Above(up) == Black)
      && CtxBalanced(up, h + Weight(k))
  }

  /** A tree is red-black exactly when each subtree and its context are balanced and match. */
  lemma {:induction false} PlugBalanced(c: Ctx, t: Tree)
    ensures RedBlack(Plug(c, t)) <==>
            Balanced(t) && CtxBalanced(c, BlackHeight(t)) && (ColorOf(t) == Black || Above(c) == Black)
    decreases c
  {
    match c
    case Top =>
    case InLeft(up, n, k, r) =>
      PlugBalanced(up, N(t, n, k, r));
      if Balanced(r) && BlackHeight(r) == BlackHeight(t) {
        assert BlackHeight(N(t, n, k, r)) == BlackHeight(t) + Weight(k);
      }
    case InRight(up, l, n, k) =>
      PlugBalanced(up, N(l, n, k, t));
      if Balanced(l) && BlackHeight(l) == BlackHeight(t) {
        assert BlackHeight(N(l, n, k, t)) == BlackHeight(t) + Weight(k);
      }
  }

  ghost function Blacken(t: Tree): Tree {
    if t.Nil? then Nil else t.(c := Black)
  }

  lemma {:induction false} ComposeBalanced(d: Ctx, outer: Ctx, outer': Ctx, h: nat)
    requires CtxBalanced(Compose(d, outer), h) && Above(outer) == Above(outer')
    requires forall k: nat :: CtxBalanced(outer, k) ==> CtxBalanced(outer', k)
    ensures CtxBalanced(Compose(d, outer'), h)
    decreases d
  {
    match d
    case Top =>
    case InLeft(up, _, k, _) => ComposeBalanced(up, outer, outer', h + Weight(k));
    case InRight(up, _, _, k) => ComposeBalanced(up, outer, outer', h + Weight(k));
  }

  // ---------- height ----------

  ghost function Height(t: Tree): nat {
    if t.Nil? then 0 else 1 + if Height(t.l) < Height(t.r) then Height(t.r) else Height(t.l)
  }

  lemma {:induction false} BlackHeightBounds(t: Tree)
    requires Balanced(t)
    ensures Height(t) <= 2 * BlackHeight(t) + (1 - Weight(ColorOf(t)))
    ensures Bits.Pow2(BlackHeight(t)) <= |Inorder(t)| + 1
  {
    if t.N? {
      BlackHeightBounds(t.l);
      BlackHeightBounds(t.r);
    }
  }

  /** The depth of a red-black tree is logarithmic: a tree of height h holds at least
      2^ceil(h / 2) - 1 nodes. */
  lemma {:induction false} HeightIsLogarithmic(t: Tree)
    requires RedBlack(t)
    ensures Bits.Pow2((Height(t) + 1) / 2) <= |Inorder(t)| + 1
  {
    BlackHeightBounds(t);
    Bits.Pow2Monotone((Height(t) + 1) / 2, BlackHeight(t));
  }
}
