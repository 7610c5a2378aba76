/** `AK/RedBlackTree.h`: the tree of heap nodes with parent links. */
module RedBlackTree {
  import opened RedBlackShape
  import opened RedBlackFixups
  import opened RedBlackDeficit
  import opened RedBlackRelink

  class BaseRedBlackTree {
    var root: Node?
    var size: nat
    var minimum: Node?
    ghost var shape: Tree

    /** The heap is the tree `t` in the context `c`. */
    ghost predicate Rep(c: Ctx, t: Tree)
      reads `root, CtxNodes(c), Nodes(t)
    {
      IsTree(c, t, root, Snapshot(CtxNodes(c) + Nodes(t)))
    }

    /** The three link changes of a left rotation, on bare nodes. */
    method RotateLeft(x: Node, ghost s: set<Node>)
      requires x in s && x.right != null && x.right in s && x != x.right
      requires x.parent != null ==> x.parent in s - {x, x.right}
      requires x.right.left != null ==> x.right.left in s - {x, x.right} && x.right.left != x.parent
      modifies `root, s
      ensures LinksOf(x) == old(LinksOf(x).(right := x.right.left, parent := x.right))
      ensures LinksOf(old(x.right)) == old(LinksOf(x.right).(left := x, parent := x.parent))
      ensures old(x.right.left) != null ==>
                LinksOf(old(x.right.left)) == old(LinksOf(x.right.left)).(parent := x)
      ensures old(x.parent) != null ==>
                LinksOf(old(x.parent)) ==
                  if old(x.parent.left) == x then old(LinksOf(x.parent).(left := x.right))
                  else old(LinksOf(x.parent).(right := x.right))
      ensures forall n :: n in s && n !in {x, old(x.right), old(x.right.left), old(x.parent)} ==>
                LinksOf(n) == old(LinksOf(n))
      ensures root == if old(x.parent) == null then old(x.right) else old(root)
    {
      var pivot := x.right;
      var parent := x.parent;
      x.right := pivot.left;
      if x.right != null {
        x.right.parent := x;
      }
      pivot.left := x;
      x.parent := pivot;
      pivot.parent := parent;
      if parent == null {
        root := pivot;
      } else if parent.left == x {
        parent.left := pivot;
      } else {
        parent.right := pivot;
      }
    }

    /** The three link changes of a right rotation, on bare nodes. */
    method RotateRight(x: Node, ghost s: set<Node>)
      requires x in s && x.left != null && x.left in s && x != x.left
      requires x.parent != null ==> x.parent in s - {x, x.left}
      requires x.left.right != null ==> x.left.right in s - {x, x.left} && x.left.right != x.parent
      modifies `root, s
      ensures LinksOf(x) == old(LinksOf(x).(left := x.left.right, parent := x.left))
      ensures LinksOf(old(x.left)) == old(LinksOf(x.left).(right := x, parent := x.parent))
      ensures old(x.left.right) != null ==>
                LinksOf(old(x.left.right)) == old(LinksOf(x.left.right)).(parent := x)
      ensures old(x.parent) != null ==>
                LinksOf(old(x.parent)) ==
                  if old(x.parent.left) == x then old(LinksOf(x.parent).(left := x.left))
                  else old(LinksOf(x.parent).(right := x.left))
      ensures forall n :: n in s && n !in {x, old(x.left), old(x.left.right), old(x.parent)} ==>
                LinksOf(n) == old(LinksOf(n))
      ensures root == if old(x.parent) == null then old(x.left) else old(root)
    {
      var pivot := x.left;
      var parent := x.parent;
      x.left := pivot.right;
      if x.left != null {
        x.left.parent := x;
      }
      pivot.right := x;
      x.parent := pivot;
      pivot.parent := parent;
      if parent == null {
        root := pivot;
      } else if parent.left == x {
        parent.left := pivot;
      } else {
        parent.right := pivot;
      }
    }

    // ---------- the same steps on the ghost picture ----------

    /** The methods that follow treat the representation as a black box; this is what they use. */
    lemma {:induction false} Facts(c: Ctx, t: Tree)
      requires Rep(c, t)
      ensures Separate(c, t) && root == TopOf(c, RootOf(t))
    {
    }

    lemma {:induction false} ZoomLeft(up: Ctx, n: Node, k: Color, r: Tree, t: Tree)
      ensures Rep(InLeft(up, n, k, r), t) <==> Rep(up, N(t, n, k, r))
      ensures CtxNodes(InLeft(up, n, k, r)) + Nodes(t) == CtxNodes(up) + Nodes(N(t, n, k, r))
    {
      assert CtxNodes(InLeft(up, n, k, r)) + Nodes(t) == CtxNodes(up) + Nodes(N(t, n, k, r));
    }

    lemma {:induction false} ZoomRight(up: Ctx, l: Tree, n: Node, k: Color, t: Tree)
      ensures Rep(InRight(up, l, n, k), t) <==> Rep(up, N(l, n, k, t))
      ensures CtxNodes(InRight(up, l, n, k)) + Nodes(t) == CtxNodes(up) + Nodes(N(l, n, k, t))
    {
      assert CtxNodes(InRight(up, l, n, k)) + Nodes(t) == CtxNodes(up) + Nodes(N(l, n, k, t));
    }

    lemma {:induction false} ZoomOut(c: Ctx, t: Tree)
      requires !c.Top?
      ensures Rep(c, t) <==> Rep(c.up, ParentTree(c, t))
      ensures CtxNodes(c) + Nodes(t) == CtxNodes(c.up) + Nodes(ParentTree(c, t))
    {
      if c.InLeft? {
        ZoomLeft(c.up, c.n, c.c, c.r, t);
      } else {
        ZoomRight(c.up, c.l, c.n, c.c, t);
      }
    }

    /** The fields of the node in focus. */
    lemma {:induction false} Look(c: Ctx, t: Tree)
      requires Rep(c, t) && t.N?
      ensures LinksOf(t.n) == Links(RootOf(t.l), RootOf(t.r), Holder(c), t.c)
    {
      assert t.n in CtxNodes(c) + Nodes(t);
      assert Snapshot(CtxNodes(c) + Nodes(t))[t.n] == LinksOf(t.n);
    }

    method RotateLeftAt(x: Node, ghost c: Ctx, ghost t: Tree)
      requires Rep(c, t) && t.N? && t.n == x && t.r.N?
      modifies `root, CtxNodes(c), Nodes(t)
      ensures Rep(c, RotatedLeft(t)) && Nodes(RotatedLeft(t)) == Nodes(t)
    {
      ghost var s := CtxNodes(c) + Nodes(t);
      ghost var h := Snapshot(s);
      ghost var y, b := t.r.n, t.r.l;
      assert Shape(t.r, x, h) && Shape(b, y, h);
      assert y in Nodes(t.r) && (b.N? ==> b.n in Nodes(b) && b.n in Nodes(t.r));
      assert LinksOf(x) == Links(RootOf(t.l), y, Holder(c), t.c);
      assert LinksOf(y) == Links(RootOf(b), RootOf(t.r.r), x, t.r.c);
      assert b.N? ==> LinksOf(b.n) == Links(RootOf(b.l), RootOf(b.r), y, b.c);
      assert c.InRight? ==> RootOf(c.l) != x;
      RotateLeft(x, s);
      ghost var h' := Snapshot(s);
      RotateLeftShape(t, Holder(c), h, h');
      Redirect(c, x, y, h, h');
    }

    method RotateRightAt(x: Node, ghost c: Ctx, ghost t: Tree)
      requires Rep(c, t) && t.N? && t.n == x && t.l.N?
      modifies `root, CtxNodes(c), Nodes(t)
      ensures Rep(c, RotatedRight(t)) && Nodes(RotatedRight(t)) == Nodes(t)
    {
      ghost var s := CtxNodes(c) + Nodes(t);
      ghost var h := Snapshot(s);
      ghost var y, b := t.l.n, t.l.r;
      assert Shape(t.l, x, h) && Shape(b, y, h);
      assert y in Nodes(t.l) && (b.N? ==> b.n in Nodes(b) && b.n in Nodes(t.l));
      assert LinksOf(x) == Links(y, RootOf(t.r), Holder(c), t.c);
      assert LinksOf(y) == Links(RootOf(t.l.l), RootOf(b), x, t.l.c);
      assert b.N? ==> LinksOf(b.n) == Links(RootOf(b.l), RootOf(b.r), y, b.c);
      assert c.InRight? ==> RootOf(c.l) != x;
      RotateRight(x, s);
      ghost var h' := Snapshot(s);
      RotateRightShape(t, Holder(c), h, h');
      Redirect(c, x, y, h, h');
    }

    method Paint(x: Node, color: Color, ghost c: Ctx, ghost t: Tree)
      requires Rep(c, t) && t.N? && t.n == x
      modifies x`color
      ensures Rep(c, t.(c := color)) && Nodes(t.(c := color)) == Nodes(t)
    {
      ghost var s := CtxNodes(c) + Nodes(t);
      ghost var h := Snapshot(s);
      x.color := color;
      ghost var h' := Snapshot(s);
      ShapeFrame(t.l, x, h, h');
      ShapeFrame(t.r, x, h, h');
      CtxFrame(c, x, h, h');
      assert CtxNodes(c) + Nodes(t.(c := color)) == s;
    }

    method PaintLeft(x: Node, color: Color, ghost c: Ctx, ghost t: Tree)
      requires Rep(c, t) && t.N? && t.l.N? && t.l.n == x
      modifies x`color
      ensures Rep(c, t.(l := t.l.(c := color))) && Nodes(t.(l := t.l.(c := color))) == Nodes(t)
    {
      ZoomLeft(c, t.n, t.c, t.r, t.l);
      Paint(x, color, InLeft(c, t.n, t.c, t.r), t.l);
      ZoomLeft(c, t.n, t.c, t.r, t.l.(c := color));
    }

    method PaintRight(x: Node, color: Color, ghost c: Ctx, ghost t: Tree)
      requires Rep(c, t) && t.N? && t.r.N? && t.r.n == x
      modifies x`color
      ensures Rep(c, t.(r := t.r.(c := color))) && Nodes(t.(r := t.r.(c := color))) == Nodes(t)
    {
      ZoomRight(c, t.l, t.n, t.c, t.r);
      Paint(x, color, InRight(c, t.l, t.n, t.c), t.r);
      ZoomRight(c, t.l, t.n, t.c, t.r.(c := color));
    }

    // ---------- insertion fix-ups ----------

    method RecolorFamily(parent: Node, uncle: Node, grand: Node, ghost up: Ctx, ghost g: Tree)
      requires Rep(up, g) && g.N? && g.n == grand && g.l.N? && g.r.N?
      requires (parent == g.l.n && uncle == g.r.n) || (parent == g.r.n && uncle == g.l.n)
      modifies Nodes(g)
      ensures Rep(up, Recolored(g)) && Nodes(Recolored(g)) == Nodes(g)
    {
      assert g.l.n in Nodes(g.l) && g.r.n in Nodes(g.r);
      ghost var l, r := g.l.(c := Black), g.r.(c := Black);
      Look(up, g);
      if grand.left == parent {
        PaintLeft(parent, Black, up, g);
        PaintRight(uncle, Black, up, g.(l := l));
      } else {
        PaintRight(parent, Black, up, g);
        PaintLeft(uncle, Black, up, g.(r := r));
      }
      Paint(grand, Red, up, N(l, grand, g.c, r));
    }

    method LiftLeftParent(parent: Node, grand: Node, ghost up: Ctx, ghost g: Tree)
      requires Rep(up, g) && g.N? && g.n == grand && g.l.N? && g.l.n == parent
      modifies `root, CtxNodes(up), Nodes(g)
      ensures Rep(up, N(g.l.l, parent, Black, N(g.l.r, grand, Red, g.r)))
      ensures Nodes(N(g.l.l, parent, Black, N(g.l.r, grand, Red, g.r))) == Nodes(g)
    {
      hide IsTree;
      assert parent in Nodes(g.l);
      PaintLeft(parent, Black, up, g);
      Paint(grand, Red, up, g.(l := g.l.(c := Black)));
      RotateRightAt(grand, up, N(g.l.(c := Black), grand, Red, g.r));
    }

    method LiftRightParent(parent: Node, grand: Node, ghost up: Ctx, ghost g: Tree)
      requires Rep(up, g) && g.N? && g.n == grand && g.r.N? && g.r.n == parent
      modifies `root, CtxNodes(up), Nodes(g)
      ensures Rep(up, N(N(g.l, grand, Red, g.r.l), parent, Black, g.r.r))
      ensures Nodes(N(N(g.l, grand, Red, g.r.l), parent, Black, g.r.r)) == Nodes(g)
    {
      hide IsTree;
      assert parent in Nodes(g.r);
      PaintRight(parent, Black, up, g);
      Paint(grand, Red, up, g.(r := g.r.(c := Black)));
      RotateLeftAt(grand, up, N(g.l, grand, Red, g.r.(c := Black)));
    }

    /** One round of the insertion loop when the parent is a left child. */
    method FixLeftParent(node: Node, ghost c: Ctx, ghost t: Tree, ghost m: Node, ghost x: Node)
      returns (next: Node, ghost c': Ctx, ghost t': Tree)
      requires Rep(c, t) && RedInFocus(c, t) && t.n == node && !c.Top? && c.c == Red && c.up.InLeft?
      modifies `root, CtxNodes(c), Nodes(t)
      ensures Rep(c', t') && RedInFocus(c', t') && t'.n == next && Depth(c') < Depth(c)
      ensures Order(c', t') == Order(c, t) && CtxNodes(c') + Nodes(t') == CtxNodes(c) + Nodes(t)
      ensures x in Nodes(t) && MinEdge(Plug(c, t), m, x) ==> x in Nodes(t') && MinEdge(Plug(c', t'), m, x)
    {
      ghost var up, u, p := c.up.up, c.up.r, ParentTree(c, t);
      Look(c, t);
      ZoomOut(c, t);
      Look(c.up, p);
      ZoomOut(c.up, p);
      if x in Nodes(t) && MinEdge(Plug(c, t), m, x) {
        LeftParentKeepsMinEdge(c, t, m, x);
      }
      Look(up, GrandTree(c, t));
      var parent := node.parent;
      var grand := parent.parent;
      var uncle := grand.right;
      if u.N? {
        ZoomRight(up, p, grand, c.up.c, u);
        Look(InRight(up, p, grand, c.up.c), u);
      }
      if uncle != null && uncle.color == Red {
        RecolorStep(c, t);
        RecolorFamily(parent, uncle, grand, up, GrandTree(c, t));
        next, c', t' := grand, up, Recolored(GrandTree(c, t));
      } else {
        next, c', t' := node, c, t;
        if parent.right == node {
          next := parent;
          RotateLeftAt(parent, c.up, p);
          c', t' := InLeft(c.up, t.n, Red, t.r), N(c.l, parent, Red, t.l);
          InnerLeftStep(up, u, grand, c.l, parent, t);
          ZoomOut(c', t');
          Look(c', t');
          ZoomOut(c'.up, ParentTree(c', t'));
        }
        OuterLeftStep(up, u, grand, c'.n, c'.r, t');
        LiftLeftParent(next.parent, grand, up, GrandTree(c', t'));
        c' := InLeft(up, c'.n, Black, N(c'.r, grand, Red, u));
        ZoomOut(c', t');
      }
    }

    /** One round of the insertion loop when the parent is a right child. */
    method FixRightParent(node: Node, ghost c: Ctx, ghost t: Tree, ghost m: Node, ghost x: Node)
      returns (next: Node, ghost c': Ctx, ghost t': Tree)
      requires Rep(c, t) && RedInFocus(c, t) && t.n == node && !c.Top? && c.c == Red && c.up.InRight?
      modifies `root, CtxNodes(c), Nodes(t)
      ensures Rep(c', t') && RedInFocus(c', t') && t'.n == next && Depth(c') < Depth(c)
      ensures Order(c', t') == Order(c, t) && CtxNodes(c') + Nodes(t') == CtxNodes(c) + Nodes(t)
      ensures x in Nodes(t) && MinEdge(Plug(c, t), m, x) ==> x in Nodes(t') && MinEdge(Plug(c', t'), m, x)
    {
      ghost var up, u, p := c.up.up, c.up.l, ParentTree(c, t);
      Look(c, t);
      ZoomOut(c, t);
      if x in Nodes(t) {
        MinEdgeNotRight(c.up, p, m, x);
      }
      Look(c.up, p);
      ZoomOut(c.up, p);
      Look(up, GrandTree(c, t));
      var parent := node.parent;
      var grand := parent.parent;
      var uncle := grand.left;
      if u.N? {
        ZoomLeft(up, grand, c.up.c, p, u);
        Look(InLeft(up, grand, c.up.c, p), u);
      }
      if uncle != null && uncle.color == Red {
        RecolorStep(c, t);
        RecolorFamily(parent, uncle, grand, up, GrandTree(c, t));
        next, c', t' := grand, up, Recolored(GrandTree(c, t));
      } else {
        next, c', t' := node, c, t;
        if parent.left == node {
          next := parent;
          RotateRightAt(parent, c.up, p);
          c', t' := InRight(c.up, t.l, t.n, Red), N(t.r, parent, Red, c.r);
          InnerRightStep(up, u, grand, c.r, parent, t);
          ZoomOut(c', t');
          Look(c', t');
          ZoomOut(c'.up, ParentTree(c', t'));
        }
        OuterRightStep(up, u, grand, c'.l, c'.n, t');
        LiftRightParent(next.parent, grand, up, GrandTree(c', t'));
        c' := InRight(up, N(u, grand, Red, c'.l), c'.n, Black);
        ZoomOut(c', t');
      }
    }

    lemma {:induction false} WholeRep(c: Ctx, t: Tree)
      ensures Rep(c, t) <==> Rep(Top, Plug(c, t))
      ensures CtxNodes(c) + Nodes(t) == Nodes(Plug(c, t))
    {
      PlugNodes(c, t);
      PlugShape(c, t, Snapshot(CtxNodes(c) + Nodes(t)));
      assert CtxNodes(Top) + Nodes(Plug(c, t)) == CtxNodes(c) + Nodes(t);
    }

    /** Restores the balance after `node0` was hung into the tree as a red leaf. */
    method InsertFixups(node0: Node, ghost c0: Ctx, ghost t0: Tree, ghost m: Node) returns (ghost whole: Tree)
      requires Rep(c0, t0) && RedInFocus(c0, t0) && t0.n == node0
      modifies `root, CtxNodes(c0), Nodes(t0)
      ensures Rep(Top, whole) && RedBlack(whole)
      ensures Inorder(whole) == Order(c0, t0) && Nodes(whole) == CtxNodes(c0) + Nodes(t0)
      ensures MinEdge(Plug(c0, t0), m, node0) ==> MinEdge(whole, m, node0)
    {
      hide IsTree;
      var node := node0;
      ghost var c, t := c0, t0;
      Look(c, t);
      if !c.Top? { ZoomOut(c, t); Look(c.up, ParentTree(c, t)); }
      while node.parent != null && node.parent.color == Red
        invariant Rep(c, t) && RedInFocus(c, t) && t.n == node
        invariant LinksOf(node).parent == Holder(c)
        invariant !c.Top? ==> LinksOf(c.n).color == c.c
        invariant Order(c, t) == Order(c0, t0) && CtxNodes(c) + Nodes(t) == CtxNodes(c0) + Nodes(t0)
        invariant MinEdge(Plug(c0, t0), m, node0) ==> node0 in Nodes(t) && MinEdge(Plug(c, t), m, node0)
        decreases Depth(c)
      {
        RedParentHasParent(c, t);
        ZoomOut(c, t);
        Look(c.up, ParentTree(c, t));
        ZoomOut(c.up, ParentTree(c, t));
        Look(c.up.up, GrandTree(c, t));
        Facts(c.up, ParentTree(c, t));
        var grand := node.parent.parent;
        if grand.right == node.parent {
          node, c, t := FixRightParent(node, c, t, m, node0);
        } else {
          node, c, t := FixLeftParent(node, c, t, m, node0);
        }
        Look(c, t);
        if !c.Top? { ZoomOut(c, t); Look(c.up, ParentTree(c, t)); }
      }
      InsertDone(c, t);
      WholeRep(c, t);
      PlugInorder(c, t);
      whole := Plug(c, t);
      Facts(Top, whole);
      Paint(root, Black, Top, whole);
      whole := whole.(c := Black);
    }

    // ---------- removal fix-ups ----------

    /** Far nephew red: the sibling takes the parent's place and colour. */
    method RaiseRight(parent: Node, sibling: Node, ghost up: Ctx, ghost g: Tree)
      requires Rep(up, g) && g.N? && g.n == parent && g.r.N? && g.r.n == sibling && g.r.r.N?
      modifies `root, CtxNodes(up), Nodes(g)
      ensures Rep(up, N(N(g.l, parent, Black, g.r.l), sibling, g.c, g.r.r.(c := Black)))
      ensures Nodes(N(N(g.l, parent, Black, g.r.l), sibling, g.c, g.r.r.(c := Black))) == Nodes(g)
    {
      hide IsTree;
      ghost var s, n := g.r, g.r.r;
      assert sibling in Nodes(s) && n.n in Nodes(n);
      Look(up, g);
      PaintRight(sibling, parent.color, up, g);
      s := s.(c := g.c);
      Paint(parent, Black, up, g.(r := s));
      ZoomRight(up, g.l, parent, Black, s);
      Look(InRight(up, g.l, parent, Black), s);
      PaintRight(sibling.right, Black, InRight(up, g.l, parent, Black), s);
      s := s.(r := n.(c := Black));
      ZoomRight(up, g.l, parent, Black, s);
      RotateLeftAt(parent, up, N(g.l, parent, Black, s));
    }

    method RaiseLeft(parent: Node, sibling: Node, ghost up: Ctx, ghost g: Tree)
      requires Rep(up, g) && g.N? && g.n == parent && g.l.N? && g.l.n == sibling && g.l.l.N?
      modifies `root, CtxNodes(up), Nodes(g)
      ensures Rep(up, N(g.l.l.(c := Black), sibling, g.c, N(g.l.r, parent, Black, g.r)))
      ensures Nodes(N(g.l.l.(c := Black), sibling, g.c, N(g.l.r, parent, Black, g.r))) == Nodes(g)
    {
      hide IsTree;
      ghost var s, n := g.l, g.l.l;
      assert sibling in Nodes(s) && n.n in Nodes(n);
      Look(up, g);
      PaintLeft(sibling, parent.color, up, g);
      s := s.(c := g.c);
      Paint(parent, Black, up, g.(l := s));
      ZoomLeft(up, parent, Black, g.r, s);
      Look(InLeft(up, parent, Black, g.r), s);
      PaintLeft(sibling.left, Black, InLeft(up, parent, Black, g.r), s);
      s := s.(l := n.(c := Black));
      ZoomLeft(up, parent, Black, g.r, s);
      RotateRightAt(parent, up, N(s, parent, Black, g.r));
    }

    /** The two colours the loop looks at below a sibling. */
    method Nephews(sibling: Node, ghost c: Ctx, ghost t: Tree) returns (leftBlack: bool, rightBlack: bool)
      requires Rep(c, t) && t.N? && t.n == sibling
      ensures Rep(c, t)
      ensures leftBlack <==> ColorOf(t.l) == Black
      ensures rightBlack <==> ColorOf(t.r) == Black
    {
      Look(c, t);
      if t.l.N? {
        ZoomLeft(c, t.n, t.c, t.r, t.l);
        Look(InLeft(c, t.n, t.c, t.r), t.l);
      }
      if t.r.N? {
        ZoomRight(c, t.l, t.n, t.c, t.r);
        Look(InRight(c, t.l, t.n, t.c), t.r);
      }
      leftBlack := sibling.left == null || sibling.left.color == Black;
      rightBlack := sibling.right == null || sibling.right.color == Black;
    }

    /** A red nephew exists: turn the near one to the far side if need be, then raise the sibling. */
    method EndFromRight(parent: Node, sibling: Node, rightBlack: bool, ghost up: Ctx, ghost g: Tree)
      returns (next: Node, ghost whole: Tree)
      requires Rep(up, g) && g.N? && g.n == parent && g.r.N? && g.r.n == sibling && g.r.c == Black
      requires ShortInFocus(InLeft(up, parent, g.c, g.r), g.l) && ColorOf(g.l) == Black
      requires rightBlack <==> ColorOf(g.r.r) == Black
      requires rightBlack ==> ColorOf(g.r.l) == Red
      modifies `root, CtxNodes(up), Nodes(g)
      ensures Rep(Top, whole) && RedBlack(whole) && whole.N? && next == whole.n
      ensures Inorder(whole) == Order(up, g) && Nodes(whole) == CtxNodes(up) + Nodes(g)
    {
      hide IsTree;
      ghost var g' := g;
      var far := sibling;
      ParentOrder(InLeft(up, parent, g.c, g.r), g.l);
      if rightBlack {
        ghost var s := g.r;
        NearNephewRight(up, parent, g.c, s, g.l);
        ZoomRight(up, g.l, parent, g.c, s);
        Look(InRight(up, g.l, parent, g.c), s);
        LiftLeftParent(sibling.left, sibling, InRight(up, g.l, parent, g.c), s);
        s := N(s.l.l, s.l.n, Black, N(s.l.r, sibling, Red, s.r));
        ZoomRight(up, g.l, parent, g.c, s);
        g' := g.(r := s);
        Look(up, g');
        far := parent.right;
      }
      FarNephewRight(up, parent, g.c, g'.r, g.l);
      RaiseRight(parent, far, up, g');
      ghost var w := N(N(g.l, parent, Black, g'.r.l), far, g.c, g'.r.r.(c := Black));
      WholeRep(up, w);
      Facts(Top, Plug(up, w));
      next, whole := root, Plug(up, w);
    }

    /** The part of a round after the sibling is known to be black; the short side is the left. */
    method BorrowFromRight(parent: Node, sibling: Node, ghost c: Ctx, ghost t: Tree)
      returns (next: Node, ghost c': Ctx, ghost t': Tree)
      requires Rep(c, t) && ShortInFocus(c, t) && ColorOf(t) == Black
      requires c.InLeft? && c.n == parent && c.r.N? && c.r.n == sibling && c.r.c == Black
      modifies `root, CtxNodes(c), Nodes(t)
      ensures Rep(c', t') && ShortInFocus(c', t') && t'.N? && t'.n == next
      ensures (c' == c.up && ColorOf(t') == c.c) || c'.Top?
      ensures Order(c', t') == Order(c, t) && CtxNodes(c') + Nodes(t') == CtxNodes(c) + Nodes(t)
    {
      hide IsTree, ShortInFocus, Inorder, Before, After;
      ghost var up, k, s := c.up, c.c, c.r;
      ParentOrder(c, t);
      ZoomOut(c, t);
      ZoomRight(up, t, parent, k, s);
      var leftBlack, rightBlack := Nephews(sibling, InRight(up, t, parent, k), s);
      ZoomRight(up, t, parent, k, s);
      if leftBlack && rightBlack {
        BlackNephewsRight(up, parent, k, s, t);
        PaintRight(sibling, Red, up, N(t, parent, k, s));
        next, c', t' := parent, up, N(t, parent, k, s.(c := Red));
      } else {
        next, t' := EndFromRight(parent, sibling, rightBlack, up, N(t, parent, k, s));
        WholeInFocus(t');
        c' := Top;
      }
    }

    /** One round of the removal loop when the short side is the left. */
    method FixShortLeft(parent: Node, ghost c: Ctx, ghost t: Tree)
      returns (next: Node, ghost c': Ctx, ghost t': Tree)
      requires Rep(c, t) && ShortInFocus(c, t) && ColorOf(t) == Black && c.InLeft? && c.n == parent
      modifies `root, CtxNodes(c), Nodes(t)
      ensures Rep(c', t') && ShortInFocus(c', t') && t'.N? && t'.n == next
      ensures Depth(c') < Depth(c) || (Depth(c') == Depth(c) && ColorOf(t') == Red)
      ensures Order(c', t') == Order(c, t) && CtxNodes(c') + Nodes(t') == CtxNodes(c) + Nodes(t)
    {
      hide IsTree;
      ghost var up, k, s := c.up, c.c, c.r;
      ShortHasSibling(c, t);
      ZoomOut(c, t);
      Look(up, ParentTree(c, t));
      ZoomRight(up, t, parent, k, s);
      Look(InRight(up, t, parent, k), s);
      var sibling := parent.right;
      if sibling.color == Red {
        RedSiblingRight(up, parent, k, s, t);
        LiftRightParent(sibling, parent, up, N(t, parent, k, s));
        ghost var up' := InLeft(up, sibling, Black, s.r);
        ghost var d := InLeft(up', parent, Red, s.l);
        ZoomLeft(up, sibling, Black, s.r, N(t, parent, Red, s.l));
        Look(up', N(t, parent, Red, s.l));
        ZoomLeft(up', parent, Red, s.l, t);
        sibling := parent.right;
        next, c', t' := BorrowFromRight(parent, sibling, d, t);
      } else {
        next, c', t' := BorrowFromRight(parent, sibling, c, t);
      }
    }

    method EndFromLeft(parent: Node, sibling: Node, leftBlack: bool, ghost up: Ctx, ghost g: Tree)
      returns (next: Node, ghost whole: Tree)
      requires Rep(up, g) && g.N? && g.n == parent && g.l.N? && g.l.n == sibling && g.l.c == Black
      requires ShortInFocus(InRight(up, g.l, parent, g.c), g.r) && ColorOf(g.r) == Black
      requires leftBlack <==> ColorOf(g.l.l) == Black
      requires leftBlack ==> ColorOf(g.l.r) == Red
      modifies `root, CtxNodes(up), Nodes(g)
      ensures Rep(Top, whole) && RedBlack(whole) && whole.N? && next == whole.n
      ensures Inorder(whole) == Order(up, g) && Nodes(whole) == CtxNodes(up) + Nodes(g)
    {
      hide IsTree;
      ghost var g' := g;
      var far := sibling;
      ParentOrder(InRight(up, g.l, parent, g.c), g.r);
      if leftBlack {
        ghost var s := g.l;
        NearNephewLeft(up, parent, g.c, s, g.r);
        ZoomLeft(up, parent, g.c, g.r, s);
        Look(InLeft(up, parent, g.c, g.r), s);
        LiftRightParent(sibling.right, sibling, InLeft(up, parent, g.c, g.r), s);
        s := N(N(s.l, sibling, Red, s.r.l), s.r.n, Black, s.r.r);
        ZoomLeft(up, parent, g.c, g.r, s);
        g' := g.(l := s);
        Look(up, g');
        far := parent.left;
      }
      FarNephewLeft(up, parent, g.c, g'.l, g.r);
      RaiseLeft(parent, far, up, g');
      ghost var w := N(g'.l.l.(c := Black), far, g.c, N(g'.l.r, parent, Black, g.r));
      WholeRep(up, w);
      Facts(Top, Plug(up, w));
      next, whole := root, Plug(up, w);
    }

    /** The same with the short side on the right. */
    method BorrowFromLeft(parent: Node, sibling: Node, ghost c: Ctx, ghost t: Tree)
      returns (next: Node, ghost c': Ctx, ghost t': Tree)
      requires Rep(c, t) && ShortInFocus(c, t) && ColorOf(t) == Black
      requires c.InRight? && c.n == parent && c.l.N? && c.l.n == sibling && c.l.c == Black
      modifies `root, CtxNodes(c), Nodes(t)
      ensures Rep(c', t') && ShortInFocus(c', t') && t'.N? && t'.n == next
      ensures (c' == c.up && ColorOf(t') == c.c) || c'.Top?
      ensures Order(c', t') == Order(c, t) && CtxNodes(c') + Nodes(t') == CtxNodes(c) + Nodes(t)
    {
      hide IsTree, ShortInFocus, Inorder, Before, After;
      ghost var up, k, s := c.up, c.c, c.l;
      ParentOrder(c, t);
      ZoomOut(c, t);
      ZoomLeft(up, parent, k, t, s);
      var leftBlack, rightBlack := Nephews(sibling, InLeft(up, parent, k, t), s);
      ZoomLeft(up, parent, k, t, s);
      if leftBlack && rightBlack {
        BlackNephewsLeft(up, parent, k, s, t);
        PaintLeft(sibling, Red, up, N(s, parent, k, t));
        next, c', t' := parent, up, N(s.(c := Red), parent, k, t);
      } else {
        next, t' := EndFromLeft(parent, sibling, leftBlack, up, N(s, parent, k, t));
        WholeInFocus(t');
        c' := Top;
      }
    }

    /** One round of the removal loop when the short side is the right. */
    method FixShortRight(parent: Node, ghost c: Ctx, ghost t: Tree)
      returns (next: Node, ghost c': Ctx, ghost t': Tree)
      requires Rep(c, t) && ShortInFocus(c, t) && ColorOf(t) == Black && c.InRight? && c.n == parent
      modifies `root, CtxNodes(c), Nodes(t)
      ensures Rep(c', t') && ShortInFocus(c', t') && t'.N? && t'.n == next
      ensures Depth(c') < Depth(c) || (Depth(c') == Depth(c) && ColorOf(t') == Red)
      ensures Order(c', t') == Order(c, t) && CtxNodes(c') + Nodes(t') == CtxNodes(c) + Nodes(t)
    {
      hide IsTree;
      ghost var up, k, s := c.up, c.c, c.l;
      ShortHasSibling(c, t);
      ZoomOut(c, t);
      Look(up, ParentTree(c, t));
      ZoomLeft(up, parent, k, t, s);
      Look(InLeft(up, parent, k, t), s);
      var sibling := parent.left;
      if sibling.color == Red {
        RedSiblingLeft(up, parent, k, s, t);
        LiftLeftParent(sibling, parent, up, N(s, parent, k, t));
        ghost var up' := InRight(up, s.l, sibling, Black);
        ghost var d := InRight(up', s.r, parent, Red);
        ZoomRight(up, s.l, sibling, Black, N(s.r, parent, Red, t));
        Look(up', N(s.r, parent, Red, t));
        ZoomRight(up', s.r, parent, Red, t);
        sibling := parent.left;
        next, c', t' := BorrowFromLeft(parent, sibling, d, t);
      } else {
        next, c', t' := BorrowFromLeft(parent, sibling, c, t);
      }
    }

    /** Below the top, the root is never the node in focus. */
    lemma {:induction false} RootIsAbove(c: Ctx, t: Tree)
      requires Rep(c, t)
      ensures t.N? ==> (root == t.n <==> c.Top?)
      ensures t.Nil? && !c.Top? ==> root != null
    {
      if !c.Top? {
        TopIsAbove(c, RootOf(t));
      }
    }

    /** Restores the balance after a black node was taken out above `node0`. */
    method RemoveFixups(node0: Node?, parent0: Node?, ghost c0: Ctx, ghost t0: Tree) returns (ghost whole: Tree)
      requires Rep(c0, t0) && ShortInFocus(c0, t0) && node0 == RootOf(t0) && parent0 == Holder(c0)
      requires t0.Nil? ==> !c0.Top?
      modifies `root, CtxNodes(c0), Nodes(t0)
      ensures Rep(Top, whole) && RedBlack(whole)
      ensures Inorder(whole) == Order(c0, t0) && Nodes(whole) == CtxNodes(c0) + Nodes(t0)
    {
      hide IsTree;
      var node, parent := node0, parent0;
      ghost var c, t := c0, t0;
      RootIsAbove(c, t);
      if t.N? { Look(c, t); }
      while node != root && (node == null || node.color == Black)
        invariant Rep(c, t) && ShortInFocus(c, t) && node == RootOf(t) && parent == Holder(c)
        invariant t.N? ==> LinksOf(t.n).color == t.c && (root == t.n <==> c.Top?)
        invariant t.Nil? ==> !c.Top? && root != null
        invariant Order(c, t) == Order(c0, t0) && CtxNodes(c) + Nodes(t) == CtxNodes(c0) + Nodes(t0)
        decreases Depth(c), if ColorOf(t) == Black then 1 else 0
      {
        ShortHasSibling(c, t);
        Facts(c, t);
        ZoomOut(c, t);
        Look(c.up, ParentTree(c, t));
        if parent.left == node {
          node, c, t := FixShortLeft(parent, c, t);
        } else {
          node, c, t := FixShortRight(parent, c, t);
        }
        Look(c, t);
        RootIsAbove(c, t);
        parent := node.parent;
      }
      ShortDone(c, t);
      Paint(node, Black, c, t);
      WholeRep(c, t.(c := Black));
      whole := Plug(c, t.(c := Black));
    }

    // ---------- removal: exchanging a node with its successor ----------

    /** Exchanges the places and colours of a node and its successor, on bare nodes. The
        successor always has a parent: it lies below the right child. */
    method Relink(node: Node, succ: Node, ghost s: set<Node>)
      requires node in s && succ in s && node != succ && succ.left == null
      requires node.left != null && node.left in s - {node, succ, node.right, node.parent, succ.parent, succ.right}
      requires node.right != null && node.right in s - {node, node.parent, succ.right}
      requires succ.parent != null && succ.parent in s - {succ, succ.right, node.parent}
      requires succ.parent == node <==> node.right == succ
      requires succ.parent != node ==> succ.parent.left == succ
      requires node.parent != null ==>
                 && node.parent in s - {node, succ, succ.right}
                 && (node.parent.left == node || node.parent.right == node)
      requires succ.right != null ==> succ.right in s - {node, succ}
      modifies `root, s
      ensures LinksOf(node) == old(Links(null, succ.right, if succ.parent == node then succ else succ.parent, succ.color))
      ensures LinksOf(succ) == old(Links(node.left, if succ.parent == node then node else node.right, node.parent, node.color))
      ensures LinksOf(old(node.left)) == old(LinksOf(node.left).(parent := succ))
      ensures old(succ.right) != null ==> LinksOf(old(succ.right)) == old(LinksOf(succ.right).(parent := node))
      ensures old(node.parent) != null ==>
                LinksOf(old(node.parent)) ==
                  if old(node.parent.left) == node then old(LinksOf(node.parent).(left := succ))
                  else old(LinksOf(node.parent).(right := succ))
      ensures forall n :: n in s && n !in {node, succ, old(node.left), old(succ.right), old(node.parent)} ==>
                LinksOf(n) == Links(if n == old(succ.parent) then node else old(n.left), old(n.right),
                                    if n == old(node.right) then succ else old(n.parent), old(n.color))
      ensures root == if old(node.parent) == null then succ else old(root)
    {
      var neighborSwap := succ.parent == node;
      node.left.parent := succ;
      if !neighborSwap {
        node.right.parent := succ;
      }
      if node.parent != null {
        if node.parent.left == node {
          node.parent.left := succ;
        } else {
          node.parent.right := succ;
        }
      } else {
        root := succ;
      }
      if succ.right != null {
        succ.right.parent := node;
      }
      if neighborSwap {
        succ.parent := node.parent;
        node.parent := succ;
      } else {
        if succ.parent.left == succ {
          succ.parent.left := node;
        } else {
          succ.parent.right := node;
        }
        node.parent, succ.parent := succ.parent, node.parent;
      }
      node.left, succ.left := succ.left, node.left;
      if neighborSwap {
        node.right := succ.right;
        succ.right := node;
      } else {
        node.right, succ.right := succ.right, node.right;
      }
      node.color, succ.color := succ.color, node.color;
    }

    method RelinkHeap(node: Node, succ: Node, ghost s: set<Node>)
      requires CanExchange(node, succ, Snapshot(s))
      modifies `root, s
      ensures Exchanged(node, succ, old(Snapshot(s)), Snapshot(s))
      ensures root == if old(node.parent) == null then succ else old(root)
    {
      ghost var h := Snapshot(s);
      assert forall n :: n in s ==> h[n] == LinksOf(n);
      Relink(node, succ, s);
      forall n | n in s ensures LinksOf(n) == ExchangedLinks(node, succ, h, n) {
        if n !in {node, succ, h[node].left, h[succ].right, h[node].parent} {
          assert LinksOf(n) == Links(if n == h[succ].parent then node else h[n].left, h[n].right,
                                     if n == h[node].right then succ else h[n].parent, h[n].color);
        }
      }
    }

    method RelinkAt(node: Node, succ: Node, ghost c: Ctx, ghost l: Tree, ghost k: Color, ghost d: Ctx, ghost u: Tree)
      requires u.N? && u.n == succ && u.l.Nil? && l.N? && LeftPath(d)
      requires Rep(BelowNode(c, l, node, k, d), u)
      modifies `root, CtxNodes(BelowNode(c, l, node, k, d)), Nodes(u)
      ensures Rep(BelowNode(c, l, succ, k, d), N(Nil, node, u.c, u.r))
      ensures CtxNodes(BelowNode(c, l, succ, k, d)) + Nodes(N(Nil, node, u.c, u.r))
           == CtxNodes(BelowNode(c, l, node, k, d)) + Nodes(u)
    {
      hide Exchanged, RelinkedEnds, RelinkedRest, Shape, CtxShape, TopOf, LeftPath;
      ghost var s := CtxNodes(BelowNode(c, l, node, k, d)) + Nodes(u);
      ghost var h, root0 := Snapshot(s), root;
      RelinkSets(c, l, node, k, d, u);
      LookBelow(c, l, node, k, d, u, root, h);
      RelinkHeap(node, succ, s);
      ghost var h' := Snapshot(s);
      ExchangedEnds(c, l, node, k, d, u, root0, h, h');
      ExchangedRest(c, l, node, k, d, u, root0, h, h');
      RelinkNodes(c, l, node, k, d, u);
      RelinkShape(c, l, node, k, d, u, root0, root, h, h');
    }

    // ---------- walking ----------

    method Leftmost(start: Node, ghost c: Ctx, ghost t: Tree) returns (n: Node, ghost d: Ctx, ghost u: Tree)
      requires Rep(c, t) && t.N? && t.n == start
      ensures Rep(c, t) && Rep(Compose(d, c), u)
      ensures LeftPath(d) && Plug(d, u) == t && u.N? && u.n == n && u.l.Nil?
      ensures CtxNodes(Compose(d, c)) + Nodes(u) == CtxNodes(c) + Nodes(t)
    {
      n, d, u := start, Top, t;
      Look(c, t);
      while n.left != null
        invariant Rep(c, t) && Rep(Compose(d, c), u) && LeftPath(d) && Plug(d, u) == t && u.N? && u.n == n
        invariant LinksOf(n).left == RootOf(u.l)
        invariant CtxNodes(Compose(d, c)) + Nodes(u) == CtxNodes(c) + Nodes(t)
        decreases u
      {
        ZoomLeft(Compose(d, c), u.n, u.c, u.r, u.l);
        n := n.left;
        d, u := InLeft(d, u.n, u.c, u.r), u.l;
        Look(Compose(d, c), u);
      }
    }

    method Rightmost(start: Node, ghost c: Ctx, ghost t: Tree) returns (n: Node)
      requires Rep(c, t) && t.N? && t.n == start
      ensures Rep(c, t) && |Inorder(t)| > 0 && n == Inorder(t)[|Inorder(t)| - 1]
    {
      n := start;
      ghost var e, u := c, t;
      Look(c, t);
      while n.right != null
        invariant Rep(c, t) && Rep(e, u) && u.N? && u.n == n && LinksOf(n).right == RootOf(u.r)
        invariant Inorder(u)[|Inorder(u)| - 1] == Inorder(t)[|Inorder(t)| - 1]
        decreases u
      {
        ZoomRight(e, u.l, u.n, u.c, u.r);
        n := n.right;
        e, u := InRight(e, u.l, u.n, u.c), u.r;
        Look(e, u);
      }
    }

    /** The next node in key order, or null behind the last one. */
    method Successor(node: Node, ghost c: Ctx, ghost t: Tree) returns (next: Node?)
      requires Rep(c, t) && t.N? && t.n == node
      ensures Rep(c, t)
      ensures var rest := Inorder(t.r) + After(c); next == if rest == [] then null else rest[0]
    {
      Look(c, t);
      if node.right != null {
        ZoomRight(c, t.l, t.n, t.c, t.r);
        ghost var d, u;
        next, d, u := Leftmost(node.right, InRight(c, t.l, t.n, t.c), t.r);
        ZoomRight(c, t.l, t.n, t.c, t.r);
        PlugInorder(d, u);
        LeftPathOrder(d);
        return;
      }
      next := ClimbRight(node, c, t);
    }

    method ClimbRight(node0: Node, ghost c0: Ctx, ghost t0: Tree) returns (temp: Node?)
      requires Rep(c0, t0) && t0.N? && t0.n == node0
      ensures Rep(c0, t0)
      ensures temp == if After(c0) == [] then null else After(c0)[0]
    {
      hide IsTree;
      var node := node0;
      ghost var c, t := c0, t0;
      Look(c, t);
      temp := node.parent;
      while temp != null && node == temp.right
        invariant Rep(c0, t0) && Rep(c, t) && t.N? && t.n == node && temp == Holder(c) && After(c) == After(c0)
        decreases c
      {
        ZoomOut(c, t);
        Look(c.up, ParentTree(c, t));
        Facts(c, t);
        assert c.InRight?;
        node := temp;
        temp := temp.parent;
        c, t := c.up, ParentTree(c, t);
      }
      if temp != null {
        ZoomOut(c, t);
        Look(c.up, ParentTree(c, t));
      }
    }

    /** The previous node in key order, or null before the first one. */
    method Predecessor(node: Node, ghost c: Ctx, ghost t: Tree) returns (next: Node?)
      requires Rep(c, t) && t.N? && t.n == node
      ensures Rep(c, t)
      ensures var rest := Before(c) + Inorder(t.l); next == if rest == [] then null else rest[|rest| - 1]
    {
      Look(c, t);
      if node.left != null {
        ZoomLeft(c, t.n, t.c, t.r, t.l);
        next := Rightmost(node.left, InLeft(c, t.n, t.c, t.r), t.l);
        ZoomLeft(c, t.n, t.c, t.r, t.l);
        return;
      }
      next := ClimbLeft(node, c, t);
    }

    method ClimbLeft(node0: Node, ghost c0: Ctx, ghost t0: Tree) returns (temp: Node?)
      requires Rep(c0, t0) && t0.N? && t0.n == node0
      ensures Rep(c0, t0)
      ensures temp == if Before(c0) == [] then null else Before(c0)[|Before(c0)| - 1]
    {
      hide IsTree;
      var node := node0;
      ghost var c, t := c0, t0;
      Look(c, t);
      temp := node.parent;
      while temp != null && node == temp.left
        invariant Rep(c0, t0) && Rep(c, t) && t.N? && t.n == node && temp == Holder(c) && Before(c) == Before(c0)
        decreases c
      {
        ZoomOut(c, t);
        Look(c.up, ParentTree(c, t));
        Facts(c, t);
        assert c.InLeft?;
        node := temp;
        temp := temp.parent;
        c, t := c.up, ParentTree(c, t);
      }
      if temp != null {
        ZoomOut(c, t);
        Look(c.up, ParentTree(c, t));
      }
    }

    // ---------- the public operations ----------

    ghost predicate Valid()
      reads this, Nodes(shape)
    {
      && Rep(Top, shape) && RedBlack(shape)
      && SortedKeys(Inorder(shape)) && size == |Inorder(shape)|
      && minimum == if shape.Nil? then null else Inorder(shape)[0]
    }

    constructor ()
      ensures Valid() && Inorder(shape) == [] && Nodes(shape) == {}
    {
      root, size, minimum, shape := null, 0, null, Nil;
      new;
      assert IsTree(Top, Nil, null, Snapshot(CtxNodes(Top) + Nodes(Nil)));
    }

    /** Hangs a fresh leaf into the hole of a context. */
    method Hang(node: Node, parent: Node, ghost c: Ctx)
      requires Rep(c, Nil) && parent == Holder(c) && node !in CtxNodes(c)
      requires node.left == null && node.right == null && node.color == Red
      requires c.InLeft? ==> node.key < parent.key
      requires c.InRight? ==> !(node.key < parent.key)
      modifies node, parent
      ensures Rep(c, N(Nil, node, Red, Nil))
    {
      ghost var s := CtxNodes(c);
      ghost var h := Snapshot(s);
      if node.key < parent.key {
        parent.left := node;
      } else {
        parent.right := node;
      }
      node.parent := parent;
      assert CtxNodes(c) + Nodes(Nil) == s;
      ghost var t := N(Nil, node, Red, Nil);
      ghost var h' := Snapshot(CtxNodes(c) + Nodes(t));
      assert node in Nodes(t) && h'[node] == LinksOf(node);
      Redirect(c, null, node, h, h');
      LeafIsTree(c, t, root, h');
    }

    /** The descent of an insertion: right on equal keys, until the link is empty. */
    method FindParent(key: int) returns (parent: Node?, ghost c: Ctx)
      requires Rep(Top, shape) && SortedKeys(Inorder(shape))
      ensures Rep(c, Nil) && parent == Holder(c) && Plug(c, Nil) == shape
      ensures forall y :: y in Before(c) ==> y.key <= key
      ensures forall y :: y in After(c) ==> key < y.key
      ensures c.InLeft? ==> key < parent.key
      ensures c.InRight? ==> !(key < parent.key)
    {
      hide IsTree;
      Facts(Top, shape);
      parent := null;
      var temp := root;
      c := Top;
      ghost var t := shape;
      while temp != null
        invariant Rep(c, t) && temp == RootOf(t) && parent == Holder(c) && Plug(c, t) == shape
        invariant SortedKeys(Inorder(t))
        invariant forall y :: y in Before(c) ==> y.key <= key
        invariant forall y :: y in After(c) ==> key < y.key
        invariant c.InLeft? ==> key < parent.key
        invariant c.InRight? ==> !(key < parent.key)
        decreases t
      {
        Look(c, t);
        SortedParts(Inorder(t.l), t.n, Inorder(t.r));
        parent := temp;
        if key < temp.key {
          ZoomLeft(c, t.n, t.c, t.r, t.l);
          c, t := InLeft(c, t.n, t.c, t.r), t.l;
          temp := temp.left;
        } else {
          ZoomRight(c, t.l, t.n, t.c, t.r);
          c, t := InRight(c, t.l, t.n, t.c), t.r;
          temp := temp.right;
        }
      }
    }

    /** The first node of an empty tree. */
    method PlantRoot(node: Node)
      requires node.left == null && node.right == null && node.parent == null
      modifies this, node
      ensures Valid() && Inorder(shape) == [node] && Nodes(shape) == {node}
    {
      node.color := Black;
      root := node;
      size := 1;
      minimum := node;
      shape := N(Nil, node, Black, Nil);
      ghost var h := Snapshot(CtxNodes(Top) + Nodes(shape));
      assert node in Nodes(shape) && h[node] == LinksOf(node);
      LeafIsTree(Top, shape, root, h);
      assert Balanced(shape.l) && Balanced(shape.r);
    }

    method Insert(node: Node)
      requires Valid() && node !in Nodes(shape)
      requires node.left == null && node.right == null && node.parent == null && node.color == Red
      modifies this, Nodes(shape), node
      ensures Valid() && Inorder(shape) == Inserted(old(Inorder(shape)), node)
      ensures Nodes(shape) == old(Nodes(shape)) + {node}
    {
      hide IsTree;
      var parent, c := FindParent(node.key);
      ghost var leaf := N(Nil, node, Red, Nil);
      InsertionPoint(c, node, leaf);
      if parent == null {
        PlantRoot(node);
        return;
      }
      Hang(node, parent, c);
      InsertHung(node, c, leaf);
    }

    /** Balances the tree around a newly hung leaf; a tree of height two needs no fix-up. */
    method Rebalance(node: Node, ghost c: Ctx, ghost t: Tree, ghost m: Node) returns (ghost whole: Tree)
      requires Rep(c, t) && RedInFocus(c, t) && t.n == node && t.l.Nil? && t.r.Nil? && !c.Top?
      requires Before(c) == [] ==> |After(c)| > 0 && m == After(c)[0]
      modifies `root, CtxNodes(c), Nodes(t)
      ensures Rep(Top, whole) && RedBlack(whole)
      ensures Inorder(whole) == Before(c) + [node] + After(c) && Nodes(whole) == CtxNodes(c) + Nodes(t)
      ensures Before(c) == [] ==> MinEdge(whole, m, node)
    {
      hide IsTree;
      LeafInFocus(c, t, m);
      Look(c, t);
      ZoomOut(c, t);
      Look(c.up, ParentTree(c, t));
      if node.parent.parent != null {
        whole := InsertFixups(node, c, t, m);
      } else {
        whole := Plug(c, t);
        WholeRep(c, t);
      }
    }

    lemma CompareMinimum(a: seq<Node>, x: Node, b: seq<Node>)
      requires Rep(Top, shape) && Inorder(shape) == a + [x] + b && |a| + |b| > 0
      requires a == [] ==> MinEdge(shape, b[0], x)
      ensures (if a == [] then b[0] else a[0]).left == x <==> a == []
    {
      var h := Snapshot(CtxNodes(Top) + Nodes(shape));
      MinimumTest(shape, h, a, x, b);
      var m := if a == [] then b[0] else a[0];
      assert LinksOf(m) == h[m];
    }

    /** The rest of an insertion, once the new leaf hangs in the tree. */
    method InsertHung(node: Node, ghost c: Ctx, ghost t: Tree)
      requires Rep(c, t) && RedInFocus(c, t) && t.n == node && t.l.Nil? && t.r.Nil? && !c.Top?
      requires size == |Before(c)| + |After(c)| > 0
      requires minimum == if Before(c) == [] then After(c)[0] else Before(c)[0]
      modifies this, CtxNodes(c), Nodes(t)
      ensures Rep(Top, shape) && RedBlack(shape) && Inorder(shape) == Before(c) + [node] + After(c)
      ensures Nodes(shape) == CtxNodes(c) + Nodes(t)
      ensures size == |Inorder(shape)| && minimum == Inorder(shape)[0]
    {
      hide IsTree;
      shape := Rebalance(node, c, t, minimum);
      size := size + 1;
      CompareMinimum(Before(c), node, After(c));
      if minimum.left == node {
        minimum := node;
      }
    }

    // ---------- removal ----------

    /** Gives a node with two children the place and colour of its successor, and back. */
    method ExchangeWithSuccessor(node: Node, ghost c: Ctx, ghost t: Tree) returns (ghost c': Ctx, ghost t': Tree)
      requires Rep(c, t) && t.N? && t.n == node && t.l.N? && t.r.N? && RedBlack(Plug(c, t))
      modifies `root, CtxNodes(c), Nodes(t)
      ensures Rep(c', t') && t'.N? && t'.n == node && t'.l.Nil? && !c'.Top? && RedBlack(Plug(c', t'))
      ensures OrderWithout(c', t') == OrderWithout(c, t)
      ensures CtxNodes(c') + Nodes(t') == CtxNodes(c) + Nodes(t)
    {
      hide IsTree;
      ghost var l, k := t.l, t.c;
      Look(c, t);
      ZoomRight(c, l, node, k, t.r);
      var succ, d, u := Leftmost(node.right, InRight(c, l, node, k), t.r);
      ParentOrder(InRight(c, l, node, k), t.r);
      PlugCompose(d, InRight(c, l, node, k), u);
      RelinkBalance(c, l, node, k, d, u);
      RelinkOrder(c, l, node, k, d, u);
      RelinkAt(node, succ, c, l, k, d, u);
      c', t' := BelowNode(c, l, succ, k, d), N(Nil, node, u.c, u.r);
    }

    /** The fields around a node with at most one child. */
    lemma {:induction false} LookAround(c: Ctx, t: Tree)
      requires Rep(c, t) && t.N? && (t.l.Nil? || t.r.Nil?)
      ensures CtxNodes(c) !! Nodes(t) && Nodes(t) == Nodes(OnlyChild(t)) + {t.n} && t.n !in Nodes(OnlyChild(t))
      ensures var n := OnlyChild(t);
              n.N? ==> n.n in Nodes(n) && LinksOf(n.n) == Links(RootOf(n.l), RootOf(n.r), t.n, n.c)
      ensures c.InLeft? ==> c.n in CtxNodes(c) && LinksOf(c.n) == Links(t.n, RootOf(c.r), Holder(c.up), c.c)
      ensures c.InRight? ==>
                c.n in CtxNodes(c) && LinksOf(c.n) == Links(RootOf(c.l), t.n, Holder(c.up), c.c) && RootOf(c.l) != t.n
    {
      var n := OnlyChild(t);
      var h := Snapshot(CtxNodes(c) + Nodes(t));
      assert Shape(n, t.n, h) && (n.N? ==> LinksOf(n.n) == h[n.n]);
      assert !c.Top? ==> LinksOf(c.n) == h[c.n];
    }

    /** Replaces a node with at most one child by that child. */
    method TakeOut(node: Node, ghost c: Ctx, ghost t: Tree) returns (child: Node?)
      requires Rep(c, t) && t.N? && t.n == node && (t.l.Nil? || t.r.Nil?)
      modifies `root, CtxNodes(c), Nodes(t)
      ensures Rep(c, OnlyChild(t)) && child == RootOf(OnlyChild(t)) && node.parent == Holder(c) && node.color == t.c
    {
      hide Shape, CtxShape, Distinct, CtxDistinct, Nodes, CtxNodes, IsTree;
      ghost var n := OnlyChild(t);
      ghost var s, s' := CtxNodes(c) + Nodes(t), CtxNodes(c) + Nodes(n);
      ghost var h, root0 := Snapshot(s), root;
      Look(c, t);
      LookAround(c, t);
      child := if node.left != null then node.left else node.right;
      if child != null {
        child.parent := node.parent;
      }
      if node.parent != null {
        if node.parent.left == node {
          node.parent.left := child;
        } else {
          node.parent.right := child;
        }
      } else {
        root := child;
      }
      TakeOutShape(c, t, root0, root, h, Snapshot(s'));
    }

    method Detach(node: Node, ghost c: Ctx, ghost t: Tree) returns (ghost whole: Tree)
      requires Rep(c, t) && t.N? && t.n == node && (t.l.Nil? || t.r.Nil?) && RedBlack(Plug(c, t))
      requires c.Top? ==> OnlyChild(t).N?
      modifies `root, CtxNodes(c), Nodes(t)
      ensures Rep(Top, whole) && RedBlack(whole) && Inorder(whole) == OrderWithout(c, t)
      ensures Nodes(whole) == CtxNodes(c) + Nodes(t) - {node}
    {
      hide IsTree;
      ghost var n := OnlyChild(t);
      Facts(c, t);
      TakeOutBalance(c, t);
      TakeOutOrder(c, t);
      var child := TakeOut(node, c, t);
      if node.color != Red {
        whole := RemoveFixups(child, node.parent, c, n);
      } else {
        WholeRep(c, n);
        whole := Plug(c, n);
      }
    }

    /** Takes the node in focus out of a tree of two or more. */
    method RemoveFocused(node: Node, ghost c: Ctx, ghost t: Tree) returns (ghost whole: Tree)
      requires Rep(c, t) && t.N? && t.n == node && RedBlack(Plug(c, t))
      requires c.Top? ==> t.l.N? || t.r.N?
      modifies `root, CtxNodes(c), Nodes(t)
      ensures Rep(Top, whole) && RedBlack(whole) && Inorder(whole) == OrderWithout(c, t)
      ensures Nodes(whole) == CtxNodes(c) + Nodes(t) - {node}
    {
      hide IsTree;
      Look(c, t);
      if node.left != null && node.right != null {
        ghost var c', t' := ExchangeWithSuccessor(node, c, t);
        whole := Detach(node, c', t');
      } else {
        whole := Detach(node, c, t);
      }
    }

    /** Forgets the only node. */
    method Clear()
      modifies this
      ensures Valid() && Inorder(shape) == [] && Nodes(shape) == {}
    {
      root := null;
      minimum := null;
      size := 0;
      shape := Nil;
      assert IsTree(Top, Nil, null, Snapshot(CtxNodes(Top) + Nodes(Nil)));
    }

    method RemoveOneOfMany(node: Node, ghost c: Ctx, ghost t: Tree, ghost a: seq<Node>, ghost b: seq<Node>)
      requires Rep(c, t) && t.N? && t.n == node && RedBlack(Plug(c, t))
      requires a == Before(c) + Inorder(t.l) && b == Inorder(t.r) + After(c)
      requires size == |a| + 1 + |b| > 1 && minimum == (if a == [] then node else a[0]) && node !in a
      modifies this, CtxNodes(c), Nodes(t)
      ensures Rep(Top, shape) && RedBlack(shape) && Inorder(shape) == a + b
      ensures size == |a + b| && minimum == (a + b)[0]
      ensures Nodes(shape) == CtxNodes(c) + Nodes(t) - {node}
    {
      hide IsTree, Inorder, Nodes, CtxNodes, Before, After, Plug, RedBlack;
      var next := minimum;
      if minimum == node {
        next := Successor(node, c, t);
      }
      SizeOfFocus(c, t);
      ghost var whole := RemoveFocused(node, c, t);
      minimum := next;
      shape := whole;
      size := size - 1;
    }

    method Remove(node: Node)
      requires Valid() && node in Nodes(shape)
      modifies this, Nodes(shape)
      ensures Valid() && Inorder(shape) == Removed(old(Inorder(shape)), node)
      ensures Nodes(shape) == old(Nodes(shape)) - {node}
    {
      hide IsTree;
      ghost var c, t := FocusOn(Top, shape, node);
      WholeRep(c, t);
      Facts(c, t);
      RemovedInFocus(c, t);
      if size == 1 {
        OnlyNode(shape, node);
        Clear();
        return;
      }
      ghost var a, b := Before(c) + Inorder(t.l), Inorder(t.r) + After(c);
      SortedWithout(a, node, b);
      NotBefore(c, t);
      RemoveOneOfMany(node, c, t, a, b);
    }

    // ---------- lookup ----------

    /** One step of a lookup: the keys the step leaves behind on either side. */
    lemma {:induction false} Step(c: Ctx, t: Tree)
      requires Rep(c, t) && t.N? && SortedKeys(Order(c, t))
      ensures LinksOf(t.n) == Links(RootOf(t.l), RootOf(t.r), Holder(c), t.c)
      ensures Rep(InLeft(c, t.n, t.c, t.r), t.l) && Order(InLeft(c, t.n, t.c, t.r), t.l) == Order(c, t)
      ensures Rep(InRight(c, t.l, t.n, t.c), t.r) && Order(InRight(c, t.l, t.n, t.c), t.r) == Order(c, t)
      ensures t.n in Order(c, t)
      ensures forall y :: y in Before(InRight(c, t.l, t.n, t.c)) ==> y.key <= t.n.key
      ensures forall y :: y in After(InLeft(c, t.n, t.c, t.r)) ==> t.n.key <= y.key
    {
      Look(c, t);
      ZoomLeft(c, t.n, t.c, t.r, t.l);
      ZoomRight(c, t.l, t.n, t.c, t.r);
      ParentOrder(InLeft(c, t.n, t.c, t.r), t.l);
      ParentOrder(InRight(c, t.l, t.n, t.c), t.r);
      AroundFocus(c, t);
    }

    method Find(key: int) returns (node: Node?)
      requires Valid()
      ensures Valid()
      ensures node != null ==> node in Inorder(shape) && node.key == key
      ensures node == null ==> forall y :: y in Inorder(shape) ==> y.key != key
    {
      hide IsTree;
      Facts(Top, shape);
      node := root;
      ghost var c, t := Top, shape;
      while node != null && node.key != key
        invariant Rep(c, t) && node == RootOf(t) && Order(c, t) == Inorder(shape)
        invariant Valid()
        invariant forall y :: y in Before(c) ==> y.key < key
        invariant forall y :: y in After(c) ==> key < y.key
        decreases t
      {
        Step(c, t);
        if key < node.key {
          node := node.left;
          c, t := InLeft(c, t.n, t.c, t.r), t.l;
        } else {
          node := node.right;
          c, t := InRight(c, t.l, t.n, t.c), t.r;
        }
      }
      if node != null {
        Step(c, t);
      } else {
        AroundNothing(c, t);
      }
    }

    method FindLargestNotAbove(key: int) returns (candidate: Node?)
      requires Valid()
      ensures candidate != null ==> candidate in Inorder(shape) && candidate.key <= key
      ensures forall y :: y in Inorder(shape) && y.key <= key ==> candidate != null && y.key <= candidate.key
    {
      hide IsTree;
      Facts(Top, shape);
      candidate := null;
      var node := root;
      ghost var c, t := Top, shape;
      while node != null
        invariant Rep(c, t) && node == RootOf(t) && Order(c, t) == Inorder(shape)
        invariant candidate != null ==> candidate in Inorder(shape) && candidate.key < key
        invariant forall y :: y in Before(c) ==> candidate != null && y.key <= candidate.key
        invariant forall y :: y in After(c) ==> key < y.key
        decreases t
      {
        Step(c, t);
        if key == node.key {
          return node;
        }
        if key < node.key {
          node := node.left;
          c, t := InLeft(c, t.n, t.c, t.r), t.l;
        } else {
          candidate := node;
          node := node.right;
          c, t := InRight(c, t.l, t.n, t.c), t.r;
        }
      }
    }

    method FindSmallestNotBelow(key: int) returns (candidate: Node?)
      requires Valid()
      ensures candidate != null ==> candidate in Inorder(shape) && key <= candidate.key
      ensures forall y :: y in Inorder(shape) && key <= y.key ==> candidate != null && candidate.key <= y.key
    {
      hide IsTree;
      Facts(Top, shape);
      candidate := null;
      var node := root;
      ghost var c, t := Top, shape;
      while node != null
        invariant Rep(c, t) && node == RootOf(t) && Order(c, t) == Inorder(shape)
        invariant candidate != null ==> candidate in Inorder(shape) && key < candidate.key
        invariant forall y :: y in After(c) ==> candidate != null && candidate.key <= y.key
        invariant forall y :: y in Before(c) ==> y.key < key
        decreases t
      {
        Step(c, t);
        if node.key == key {
          return node;
        }
        if node.key <= key {
          node := node.right;
          c, t := InRight(c, t.l, t.n, t.c), t.r;
        } else {
          candidate := node;
          node := node.left;
          c, t := InLeft(c, t.n, t.c, t.r), t.l;
        }
      }
    }

    /** `RedBlackTree::remove`: takes out one node with the key, if there is one. */
    method RemoveKey(key: int) returns (found: bool)
      requires Valid()
      modifies this, Nodes(shape)
      ensures Valid()
      ensures forall n :: n in Nodes(shape) && n !in old(Nodes(shape)) ==> fresh(n)
      ensures found <==> key in KeysOf(old(Inorder(shape)))
      ensures !found ==> Inorder(shape) == old(Inorder(shape))
      ensures found ==> exists n ::
                          n in old(Inorder(shape)) && n.key == key && Inorder(shape) == Removed(old(Inorder(shape)), n)
      ensures KeysOf(Inorder(shape)) == WithoutKey(old(KeysOf(Inorder(shape))), key)
    {
      ghost var s := Inorder(shape);
      var node := Find(key);
      found := node != null;
      if node == null {
        AbsentKey(s, key);
        return;
      }
      InorderNodes(shape);
      RemovedKeys(s, node);
      Remove(node);
    }

    /** `RedBlackTree::insert`: a new node behind the equal keys. */
    method InsertKey(key: int) returns (node: Node)
      requires Valid()
      modifies this, Nodes(shape)
      ensures Valid() && fresh(node) && node.key == key && node !in old(Inorder(shape))
      ensures Inorder(shape) == Inserted(old(Inorder(shape)), node)
      ensures forall n :: n in Nodes(shape) && n !in old(Nodes(shape)) ==> fresh(n)
      ensures KeysOf(Inorder(shape)) == WithKey(old(KeysOf(Inorder(shape))), key)
    {
      hide BaseRedBlackTree.Valid;
      ghost var s := Inorder(shape);
      assert allocated(Nodes(shape));
      node := new Node(key);
      InorderNodes(shape);
      InsertedKeys(s, node);
      Insert(node);
    }
  }
}
