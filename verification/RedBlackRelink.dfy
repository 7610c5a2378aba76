/** Removal of a node with two children: exchanging it with its successor by relinking. */
module RedBlackRelink {
  import opened RedBlackShape
  import opened RedBlackFixups

  /** A path that only goes left, as the search for a successor does below the right child. */
  ghost predicate LeftPath(d: Ctx) {
    d.Top? || (d.InLeft? && LeftPath(d.up))
  }

  lemma {:induction false} LeftPathOrder(d: Ctx)
    requires LeftPath(d)
    ensures Before(d) == []
  {
    if !d.Top? {
      LeftPathOrder(d.up);
    }
  }

  /** The links of a left path after its outer end and its hole were moved to other nodes. */
  ghost predicate Moved(d: Ctx, owner: Node, hole: Node, h: Heap, h': Heap)
    requires !d.Top?
  {
    forall n :: n in CtxNodes(d) && n in h ==>
      && n in h'
      && h'[n] == Links(if n == d.n then hole else h[n].left, h[n].right,
                        if n == TopOf(d, null) then owner else h[n].parent, h[n].color)
  }

  lemma {:induction false} MovePath(d: Ctx, outer: Ctx, outer': Ctx, hole: Node, hole': Node, h: Heap, h': Heap)
    requires LeftPath(d) && CtxDistinct(d) && !outer.Top? && !outer'.Top?
    requires CtxShape(Compose(d, outer), hole, h)
    requires CtxShape(outer', if d.Top? then hole' else TopOf(d, null), h')
    requires !d.Top? ==> Moved(d, outer'.n, hole', h, h')
    ensures CtxShape(Compose(d, outer'), hole', h')
    decreases d
  {
    if !d.Top? {
      var up, m, r := d.up, d.n, d.r;
      assert Compose(d, outer) == InLeft(Compose(up, outer), m, d.c, r);
      assert CtxShape(Compose(up, outer), m, h);
      if !up.Top? {
        assert Compose(up, outer) == InLeft(Compose(up.up, outer), up.n, up.c, up.r);
        TopIsAbove(up, null);
        assert TopOf(d, null) == TopOf(up, m) == TopOf(up, null) by { TopIndependent(up, m, null); }
        assert h[up.n].left == m;
      } else {
        assert TopOf(d, null) == TopOf(up, m) == m;
      }
      MovePath(up, outer, outer', m, m, h, h');
      ShapeFrame(r, m, h, h');
    }
  }

  lemma {:induction false} TopIndependent(c: Ctx, x: Node?, y: Node?)
    requires !c.Top?
    ensures TopOf(c, x) == TopOf(c, y)
  {
    if !c.up.Top? {
      TopIndependent(c.up, c.n, c.n);
    }
  }

  lemma {:induction false} ComposeTop(d: Ctx, outer: Ctx, x: Node?)
    requires !outer.Top?
    ensures TopOf(Compose(d, outer), x) == TopOf(outer, null)
  {
    if d.Top? {
      TopIndependent(outer, x, null);
    } else {
      ComposeTop(d.up, outer, d.n);
    }
  }

  lemma {:induction false} PathShape(d: Ctx, outer: Ctx, hole: Node?, h: Heap)
    requires CtxShape(Compose(d, outer), hole, h)
    ensures CtxShape(outer, TopOf(d, hole), h)
  {
    if !d.Top? {
      PathShape(d.up, outer, d.n, h);
    }
  }

  /** The two sides of a relinking, seen from the hole below the successor's parent: everything
      between the node and its successor is the left path `d`. */
  ghost function BelowNode(c: Ctx, l: Tree, n: Node, k: Color, d: Ctx): Ctx {
    Compose(d, InRight(c, l, n, k))
  }

  /** The links a relinking must produce for the two exchanged nodes and their neighbours. */
  ghost predicate RelinkedEnds(c: Ctx, l: Tree, node: Node, k: Color, d: Ctx, u: Tree, h': Heap)
    requires u.N? && l.N?
  {
    var s := u.n;
    && node in h' && h'[node] == Links(null, RootOf(u.r), if d.Top? then s else d.n, u.c)
    && s in h' && h'[s] == Links(l.n, if d.Top? then node else TopOf(d, null), Holder(c), k)
    && l.n in h' && h'[l.n] == Links(RootOf(l.l), RootOf(l.r), s, l.c)
    && (u.r.N? ==> u.r.n in h' && h'[u.r.n] == Links(RootOf(u.r.l), RootOf(u.r.r), node, u.r.c))
    && (c.InLeft? ==> c.n in h' && h'[c.n] == Links(s, RootOf(c.r), Holder(c.up), c.c))
    && (c.InRight? ==> c.n in h' && h'[c.n] == Links(RootOf(c.l), s, Holder(c.up), c.c))
  }

  /** Everything else keeps its links, except along the path between the two nodes. */
  ghost predicate RelinkedRest(c: Ctx, l: Tree, node: Node, d: Ctx, u: Tree, h: Heap, h': Heap)
    requires u.N? && l.N?
  {
    && (!d.Top? ==> Moved(d, u.n, node, h, h'))
    && Same(h, h', Nodes(l) - {l.n})
    && (u.r.N? ==> Same(h, h', Nodes(u.r) - {u.r.n}))
    && (!c.Top? ==> Same(h, h', CtxNodes(c) - {c.n}))
  }

  lemma {:induction false} ExchangeInSets<T>(a: set<T>, b: set<T>, c: set<T>, d: set<T>, x: T, y: T)
    requires a !! ({x} + b + c) && ({y} + d) !! (a + ({x} + b + c))
    requires x !in b && x !in c && y !in d
    ensures a !! ({y} + b + c) && ({x} + d) !! (a + ({y} + b + c))
    ensures y !in b && y !in c && x !in d
    ensures a + ({y} + b + c) + ({x} + d) == a + ({x} + b + c) + ({y} + d)
  {
  }

  lemma {:induction false} RelinkNodes(c: Ctx, l: Tree, node: Node, k: Color, d: Ctx, u: Tree)
    requires u.N? && u.l.Nil? && Separate(BelowNode(c, l, node, k, d), u)
    ensures var u' := N(Nil, node, u.c, u.r);
            && Separate(BelowNode(c, l, u.n, k, d), u')
            && CtxNodes(BelowNode(c, l, u.n, k, d)) + Nodes(u') == CtxNodes(BelowNode(c, l, node, k, d)) + Nodes(u)
  {
    var o, o', u' := InRight(c, l, node, k), InRight(c, l, u.n, k), N(Nil, node, u.c, u.r);
    ComposeNodes(d, o);
    ComposeNodes(d, o');
    assert Nodes(u.l) == Nodes(u'.l) == {};
    ExchangeInSets(CtxNodes(d), Nodes(l), CtxNodes(c), Nodes(u.r), node, u.n);
  }

  lemma {:induction false} RelinkParts(c: Ctx, l: Tree, node: Node, k: Color, d: Ctx, u: Tree)
    requires u.N? && Separate(BelowNode(c, l, node, k, d), u)
    ensures CtxDistinct(d) && CtxDistinct(c) && Distinct(l) && Distinct(u.r)
  {
    ComposeNodes(d, InRight(c, l, node, k));
  }

  /** The parts around an exchange do not overlap. */
  lemma {:induction false} RelinkSets(c: Ctx, l: Tree, node: Node, k: Color, d: Ctx, u: Tree)
    requires u.N? && u.l.Nil? && Separate(BelowNode(c, l, node, k, d), u)
    ensures CtxNodes(BelowNode(c, l, node, k, d)) + Nodes(u)
         == CtxNodes(d) + Nodes(l) + CtxNodes(c) + Nodes(u.r) + {node, u.n}
    ensures node != u.n && {node, u.n} !! (CtxNodes(d) + Nodes(l) + CtxNodes(c) + Nodes(u.r))
    ensures CtxNodes(d) !! Nodes(l) !! CtxNodes(c) !! Nodes(u.r)
  {
    ComposeNodes(d, InRight(c, l, node, k));
    assert Nodes(u.l) == {};
  }

  /** The fields of a node with two children and of everything its exchange with the successor
      touches. */
  lemma {:induction false} LookBelow(c: Ctx, l: Tree, node: Node, k: Color, d: Ctx, u: Tree, root: Node?, h: Heap)
    requires u.N? && u.l.Nil? && l.N? && LeftPath(d)
    requires IsTree(BelowNode(c, l, node, k, d), u, root, h)
    ensures h.Keys >= {node, u.n, l.n} && l.n in Nodes(l)
    ensures h[node] == Links(l.n, if d.Top? then u.n else TopOf(d, null), Holder(c), k)
    ensures h[u.n] == Links(null, RootOf(u.r), if d.Top? then node else d.n, u.c)
    ensures h[l.n] == Links(RootOf(l.l), RootOf(l.r), node, l.c)
    ensures u.r.N? ==> u.r.n in h && u.r.n in Nodes(u.r) && h[u.r.n] == Links(RootOf(u.r.l), RootOf(u.r.r), u.n, u.r.c)
    ensures c.InLeft? ==> c.n in h && h[c.n] == Links(node, RootOf(c.r), Holder(c.up), c.c)
    ensures c.InRight? ==> c.n in h && h[c.n] == Links(RootOf(c.l), node, Holder(c.up), c.c)
    ensures d.InLeft? ==> d.n in h && d.n in CtxNodes(d) && h[d.n].left == u.n && TopOf(d, null) in CtxNodes(d)
    ensures (d.Top? || d.InLeft?) && (!c.Top? ==> c.n in CtxNodes(c)) && (c.InRight? && c.l.N? ==> c.l.n in CtxNodes(c))
    ensures Shape(l, node, h) && CtxShape(c, node, h)
  {
    PathShape(d, InRight(c, l, node, k), u.n, h);
    if !d.Top? {
      TopIsAbove(d, null);
      TopIndependent(d, u.n, null);
    }
    assert Shape(u.l, u.n, h) && Shape(u.r, u.n, h);
  }

  /** Two nodes that a relinking may exchange, with their neighbours apart. */
  ghost predicate CanExchange(node: Node, succ: Node, h: Heap) {
    && {node, succ} <= h.Keys && node != succ
    && var (a, b) := (h[node], h[succ]);
    && b.left == null
    && a.left != null && a.left in h.Keys - {node, succ, a.right, a.parent, b.parent, b.right}
    && a.right != null && a.right in h.Keys - {node, a.parent, b.right}
    && b.parent != null && b.parent in h.Keys - {succ, b.right, a.parent}
    && (b.parent == node <==> a.right == succ)
    && (b.parent != node ==> h[b.parent].left == succ)
    && (a.parent != null ==>
          a.parent in h.Keys - {node, succ, b.right} && (h[a.parent].left == node || h[a.parent].right == node))
    && (b.right != null ==> b.right in h.Keys - {node, succ})
  }

  /** The links after the source's relinking, node by node. */
  ghost function ExchangedLinks(node: Node, succ: Node, h: Heap, n: Node): Links
    requires {node, succ, n} <= h.Keys
  {
    var neighbors := h[succ].parent == node;
    if n == node then
      Links(null, h[succ].right, if neighbors then succ else h[succ].parent, h[succ].color)
    else if n == succ then
      Links(h[node].left, if neighbors then node else h[node].right, h[node].parent, h[node].color)
    else
      Links(if n == h[succ].parent then node
            else if n == h[node].parent && h[n].left == node then succ else h[n].left,
            if n == h[node].parent && h[n].left != node then succ else h[n].right,
            if n == h[node].left || n == h[node].right then succ
            else if n == h[succ].right then node else h[n].parent,
            h[n].color)
  }

  ghost predicate Exchanged(node: Node, succ: Node, h: Heap, h': Heap) {
    && {node, succ} <= h.Keys && h'.Keys == h.Keys
    && forall n :: n in h ==> h'[n] == ExchangedLinks(node, succ, h, n)
  }

  lemma {:induction false} ExchangedEnds(c: Ctx, l: Tree, node: Node, k: Color, d: Ctx, u: Tree, root: Node?, h: Heap, h': Heap)
    requires u.N? && u.l.Nil? && l.N? && LeftPath(d)
    requires IsTree(BelowNode(c, l, node, k, d), u, root, h)
    requires Exchanged(node, u.n, h, h')
    ensures RelinkedEnds(c, l, node, k, d, u, h')
  {
    hide Shape, CtxShape, Nodes, CtxNodes, Distinct, CtxDistinct, TopOf, LeftPath;
    RelinkSets(c, l, node, k, d, u);
    LookBelow(c, l, node, k, d, u, root, h);
  }

  lemma {:induction false} ExchangedPath(c: Ctx, l: Tree, node: Node, k: Color, d: Ctx, u: Tree, root: Node?, h: Heap, h': Heap)
    requires u.N? && u.l.Nil? && l.N? && LeftPath(d) && !d.Top?
    requires IsTree(BelowNode(c, l, node, k, d), u, root, h)
    requires Exchanged(node, u.n, h, h')
    ensures Moved(d, u.n, node, h, h')
  {
    hide Shape, CtxShape, Nodes, CtxNodes, Distinct, CtxDistinct, TopOf, LeftPath;
    RelinkSets(c, l, node, k, d, u);
    LookBelow(c, l, node, k, d, u, root, h);
  }

  lemma {:induction false} ExchangedRest(c: Ctx, l: Tree, node: Node, k: Color, d: Ctx, u: Tree, root: Node?, h: Heap, h': Heap)
    requires u.N? && u.l.Nil? && l.N? && LeftPath(d)
    requires IsTree(BelowNode(c, l, node, k, d), u, root, h)
    requires Exchanged(node, u.n, h, h')
    ensures RelinkedRest(c, l, node, d, u, h, h')
  {
    hide Shape, CtxShape, Nodes, CtxNodes, Distinct, CtxDistinct, TopOf, LeftPath, Exchanged, Moved, Same;
    LookBelow(c, l, node, k, d, u, root, h);
    RelinkSets(c, l, node, k, d, u);
    if !d.Top? {
      ExchangedPath(c, l, node, k, d, u, root, h, h');
    }
    Untouched(node, u.n, h, h', Nodes(l) - {l.n});
    if u.r.N? {
      Untouched(node, u.n, h, h', Nodes(u.r) - {u.r.n});
    }
    if !c.Top? {
      Untouched(node, u.n, h, h', CtxNodes(c) - {c.n});
    }
  }

  lemma {:induction false} Untouched(node: Node, succ: Node, h: Heap, h': Heap, s: set<Node>)
    requires Exchanged(node, succ, h, h')
    requires var (a, b) := (h[node], h[succ]); {node, succ, b.parent, b.right, a.left, a.right, a.parent} !! s
    ensures Same(h, h', s)
  {
  }

  /** Exchanging a node with its successor keeps the colours in place and moves only the two nodes. */
  lemma {:induction false} RelinkShape(c: Ctx, l: Tree, node: Node, k: Color, d: Ctx, u: Tree, root: Node?, root': Node?, h: Heap, h': Heap)
    requires u.N? && u.l.Nil? && l.N? && LeftPath(d)
    requires IsTree(BelowNode(c, l, node, k, d), u, root, h)
    requires Shape(l, node, h) && CtxShape(c, node, h)
    requires RelinkedEnds(c, l, node, k, d, u, h') && RelinkedRest(c, l, node, d, u, h, h')
    requires root' == if c.Top? then u.n else root
    ensures IsTree(BelowNode(c, l, u.n, k, d), N(Nil, node, u.c, u.r), root', h')
  {
    var s := u.n;
    RelinkNodes(c, l, node, k, d, u);
    RelinkParts(c, l, node, k, d, u);
    Redirect(c, node, s, h, h');
    Reparent(l, node, s, h, h');
    Reparent(u.r, s, node, h, h');
    MovePath(d, InRight(c, l, node, k), InRight(c, l, s, k), s, node, h, h');
    ComposeTop(d, InRight(c, l, node, k), s);
    ComposeTop(d, InRight(c, l, s, k), node);
    if !c.Top? {
      TopIndependent(c, node, s);
    }
  }

  /** What is left of the nodes in key order when the node in focus goes. */
  ghost function OrderWithout(c: Ctx, t: Tree): seq<Node>
    requires t.N?
  {
    (Before(c) + Inorder(t.l)) + (Inorder(t.r) + After(c))
  }

  /** After the exchange the tree is still balanced, and taking the node out from its new place
      leaves the same sequence as taking it out from its old one. */
  lemma {:induction false} RelinkBalance(c: Ctx, l: Tree, node: Node, k: Color, d: Ctx, u: Tree)
    requires u.N? && u.l.Nil?
    requires RedBlack(Plug(BelowNode(c, l, node, k, d), u))
    ensures RedBlack(Plug(BelowNode(c, l, u.n, k, d), N(Nil, node, u.c, u.r)))
  {
    var o, o' := InRight(c, l, node, k), InRight(c, l, u.n, k);
    PlugBalanced(Compose(d, o), u);
    PlugBalanced(Compose(d, o'), N(Nil, node, u.c, u.r));
    ComposeBalanced(d, o, o', BlackHeight(u));
    assert Balanced(u.l) && Balanced(N(Nil, node, u.c, u.r));
  }

  lemma {:induction false} RelinkOrder(c: Ctx, l: Tree, node: Node, k: Color, d: Ctx, u: Tree)
    requires u.N? && u.l.Nil? && LeftPath(d)
    ensures OrderWithout(BelowNode(c, l, u.n, k, d), N(Nil, node, u.c, u.r))
         == OrderWithout(c, N(l, node, k, Plug(d, u)))
  {
    var o' := InRight(c, l, u.n, k);
    ComposeOrder(d, o');
    LeftPathOrder(d);
    PlugInorder(d, u);
    assert Inorder(Plug(d, u)) == [u.n] + Inorder(u.r) + After(d);
    assert Before(Compose(d, o')) == Before(c) + Inorder(l) + [u.n];
    assert After(Compose(d, o')) == After(d) + After(c);
    SameWithout(Before(c) + Inorder(l), u.n, Inorder(u.r), After(d), After(c));
  }

  lemma SameWithout<T>(a: seq<T>, x: T, b: seq<T>, e: seq<T>, f: seq<T>)
    ensures (a + [x] + []) + (b + (e + f)) == a + (([x] + b + e) + f)
  {
  }

  // ---------- taking a node out ----------

  ghost function OnlyChild(t: Tree): Tree
    requires t.N?
  {
    if t.l.N? then t.l else t.r
  }

  /** A red node with at most one child has none; a black one leaves its child one short. */
  lemma {:induction false} TakeOutBalance(c: Ctx, t: Tree)
    requires t.N? && (t.l.Nil? || t.r.Nil?) && RedBlack(Plug(c, t))
    ensures t.c == Red ==> RedBlack(Plug(c, OnlyChild(t)))
    ensures t.c == Black ==> Balanced(Blacken(OnlyChild(t))) && CtxBalanced(c, BlackHeight(OnlyChild(t)) + 1)
  {
    PlugBalanced(c, t);
    PlugBalanced(c, OnlyChild(t));
  }

  lemma {:induction false} TakeOutOrder(c: Ctx, t: Tree)
    requires t.N? && (t.l.Nil? || t.r.Nil?) && Separate(c, t)
    ensures Order(c, OnlyChild(t)) == OrderWithout(c, t) == Inorder(Plug(c, OnlyChild(t)))
    ensures CtxNodes(c) + Nodes(OnlyChild(t)) == CtxNodes(c) + Nodes(t) - {t.n}
  {
    hide Before, After, Plug, CtxNodes;
    var n := OnlyChild(t);
    PlugInorder(c, n);
    OneChild(t);
    assert Before(c) + (Inorder(t.l) + Inorder(t.r)) + After(c) == (Before(c) + Inorder(t.l)) + (Inorder(t.r) + After(c));
  }

  lemma {:induction false} OneChild(t: Tree)
    requires t.N? && (t.l.Nil? || t.r.Nil?)
    ensures Inorder(OnlyChild(t)) == Inorder(t.l) + Inorder(t.r) && Nodes(t) == Nodes(OnlyChild(t)) + {t.n}
  {
  }

  lemma {:induction false} TakeOutShape(c: Ctx, t: Tree, root: Node?, root': Node?, h: Heap, h': Heap)
    requires t.N? && (t.l.Nil? || t.r.Nil?) && IsTree(c, t, root, h)
    requires var n := OnlyChild(t);
             n.N? ==> n.n in h' && h'[n.n] == Links(RootOf(n.l), RootOf(n.r), Holder(c), n.c) && Same(h, h', Nodes(n) - {n.n})
    requires c.InLeft? ==> c.n in h' && h'[c.n] == Links(RootOf(OnlyChild(t)), RootOf(c.r), Holder(c.up), c.c)
    requires c.InRight? ==> c.n in h' && h'[c.n] == Links(RootOf(c.l), RootOf(OnlyChild(t)), Holder(c.up), c.c)
    requires !c.Top? ==> Same(h, h', CtxNodes(c) - {c.n})
    requires root' == if c.Top? then RootOf(OnlyChild(t)) else root
    ensures IsTree(c, OnlyChild(t), root', h')
  {
    Redirect(c, t.n, RootOf(OnlyChild(t)), h, h');
    Reparent(OnlyChild(t), t.n, Holder(c), h, h');
    if !c.Top? {
      TopIndependent(c, t.n, RootOf(OnlyChild(t)));
    }
  }

  // ---------- the specification ----------

  ghost function Removed(s: seq<Node>, x: Node): seq<Node> {
    if s == [] then [] else if s[0] == x then s[1..] else [s[0]] + Removed(s[1..], x)
  }

  lemma {:induction false} RemovedMiddle(a: seq<Node>, x: Node, b: seq<Node>)
    requires x !in a
    ensures Removed(a + [x] + b, x) == a + b
  {
    var s := a + [x] + b;
    if a == [] {
      assert s[0] == x && s[1..] == b && a + b == b;
    } else {
      assert s[0] == a[0] && a[0] in a && s[1..] == a[1..] + [x] + b;
      RemovedMiddle(a[1..], x, b);
      assert a + b == [a[0]] + (a[1..] + b);
    }
  }

  lemma {:induction false} BeforeNodes(c: Ctx, y: Node)
    requires y in Before(c)
    ensures y in CtxNodes(c)
  {
    if c.InLeft? || y in Before(c.up) {
      BeforeNodes(c.up, y);
    } else if y in Inorder(c.l) {
      InorderNodes(c.l);
    } else {
      assert y == c.n;
    }
  }

  lemma {:induction false} NotBefore(c: Ctx, t: Tree)
    requires t.N? && Separate(c, t)
    ensures t.n !in Before(c) + Inorder(t.l)
  {
    if t.n in Before(c) {
      BeforeNodes(c, t.n);
    }
    InorderNodes(t.l);
  }

  /** A root without children is the only node. */
  lemma {:induction false} SizeOfFocus(c: Ctx, t: Tree)
    requires t.N? && |OrderWithout(c, t)| > 0
    ensures c.Top? ==> t.l.N? || t.r.N?
  {
  }

  /** Taking out the node in focus is what `Removed` asks for. */
  lemma {:induction false} RemovedInFocus(c: Ctx, t: Tree)
    requires t.N? && Separate(c, t)
    ensures Inorder(Plug(c, t)) == (Before(c) + Inorder(t.l)) + [t.n] + (Inorder(t.r) + After(c))
    ensures Removed(Inorder(Plug(c, t)), t.n) == OrderWithout(c, t)
  {
    PlugInorder(c, t);
    var a, b := Before(c) + Inorder(t.l), Inorder(t.r) + After(c);
    assert Before(c) + Inorder(t) + After(c) == a + [t.n] + b;
    NotBefore(c, t);
    RemovedMiddle(a, t.n, b);
  }

  lemma SortedWithout(a: seq<Node>, x: Node, b: seq<Node>)
    requires SortedKeys(a + [x] + b)
    ensures SortedKeys(a + b)
  {
    var s := a + [x] + b;
    assert forall i :: 0 <= i < |a| ==> s[i] == (a + b)[i];
    assert forall i :: |a| <= i < |a + b| ==> s[i + 1] == (a + b)[i];
  }

  lemma {:induction false} OnlyNode(t: Tree, x: Node)
    requires |Inorder(t)| == 1 && x in Nodes(t)
    ensures Inorder(t) == [x] && Nodes(t) == {x}
  {
    InorderNodes(t);
    assert forall y :: y in Nodes(t) ==> y == Inorder(t)[0];
  }

  // ---------- keys ----------

  ghost function KeysOf(s: seq<Node>): (r: seq<int>)
    ensures |r| == |s|
  {
    seq(|s|, i requires 0 <= i < |s| => s[i].key)
  }

  ghost function WithKey(s: seq<int>, k: int): seq<int> {
    if s == [] then [k] else if k < s[0] then [k] + s else [s[0]] + WithKey(s[1..], k)
  }

  /** Without the first occurrence of a key. */
  ghost function WithoutKey(s: seq<int>, k: int): seq<int> {
    if s == [] then [] else if s[0] == k then s[1..] else [s[0]] + WithoutKey(s[1..], k)
  }

  lemma {:induction false} InsertedKeys(s: seq<Node>, x: Node)
    ensures KeysOf(Inserted(s, x)) == WithKey(KeysOf(s), x.key)
  {
    if s != [] {
      assert KeysOf(s)[1..] == KeysOf(s[1..]);
      InsertedKeys(s[1..], x);
    }
  }

  lemma {:induction false} KeysCons(x: Node, s: seq<Node>)
    ensures KeysOf([x] + s) == [x.key] + KeysOf(s)
  {
  }

  lemma {:induction false} KeysSplit(s: seq<Node>)
    requires s != []
    ensures s == [s[0]] + s[1..] && KeysOf(s) == [s[0].key] + KeysOf(s[1..])
  {
    KeysCons(s[0], s[1..]);
    assert s == [s[0]] + s[1..];
  }

  lemma {:induction false} SortedRest(s: seq<Node>, x: Node)
    requires SortedKeys(s) && x in s
    ensures SortedKeys(s[1..]) && s[0].key <= x.key && (s[0] != x ==> x in s[1..])
    ensures forall y :: y in s[1..] ==> s[0].key <= y.key
  {
    var i :| 0 <= i < |s| && s[i] == x;
    assert i > 0 ==> s[1..][i - 1] == x;
  }

  /** In a sorted sequence, taking out any one of several equal keys leaves the same keys. */
  lemma {:induction false} RemovedKeys(s: seq<Node>, x: Node)
    requires SortedKeys(s) && x in s
    ensures KeysOf(Removed(s, x)) == WithoutKey(KeysOf(s), x.key)
    ensures x.key in KeysOf(s)
  {
    hide KeysOf, SortedKeys;
    SortedRest(s, x);
    KeysSplit(s);
    assert KeysOf(s)[1..] == KeysOf(s[1..]);
    if s[0] != x {
      RemovedKeys(s[1..], x);
      KeysCons(s[0], Removed(s[1..], x));
      if s[0].key == x.key {
        ShiftEqual(s[1..], x);
      }
    }
  }

  /** In front of `x` all keys are equal to its key: dropping `x` is dropping the first one. */
  lemma {:induction false} ShiftEqual(s: seq<Node>, x: Node)
    requires SortedKeys(s) && x in s && forall y :: y in s ==> x.key <= y.key
    ensures [x.key] + KeysOf(Removed(s, x)) == KeysOf(s)
  {
    hide KeysOf, SortedKeys;
    SortedRest(s, x);
    KeysSplit(s);
    if s[0] != x {
      assert s[0] in s;
      ShiftEqual(s[1..], x);
      KeysCons(s[0], Removed(s[1..], x));
    }
  }

  lemma {:induction false} AbsentKey(s: seq<Node>, k: int)
    requires forall y :: y in s ==> y.key != k
    ensures WithoutKey(KeysOf(s), k) == KeysOf(s) && k !in KeysOf(s)
  {
    if s != [] {
      assert KeysOf(s)[1..] == KeysOf(s[1..]);
      AbsentKey(s[1..], k);
      assert KeysOf(s) == [s[0].key] + KeysOf(s[1..]);
    }
  }
}
