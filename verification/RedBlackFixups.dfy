/** What each fix-up step does to balance and order, on the ghost picture alone. */
module RedBlackFixups {
  import opened RedBlackShape

  /** The nodes in key order, with a subtree in focus. */
  ghost function Order(c: Ctx, t: Tree): seq<Node> {
    Before(c) + Inorder(t) + After(c)
  }

  // ---------- insertion ----------

  /** The state of the insertion loop: a red subtree in focus whose parent may be red too,
      and nothing else wrong. */
  ghost predicate RedInFocus(c: Ctx, t: Tree) {
    t.N? && t.c == Red && Balanced(t) && CtxBalanced(c, BlackHeight(t))
  }

  /** The subtree of the parent of the focus. */
  ghost function ParentTree(c: Ctx, t: Tree): Tree
    requires !c.Top?
  {
    if c.InLeft? then N(t, c.n, c.c, c.r) else N(c.l, c.n, c.c, t)
  }

  /** The subtree of the grandparent of the focus. */
  ghost function GrandTree(c: Ctx, t: Tree): Tree
    requires !c.Top? && !c.up.Top?
  {
    ParentTree(c.up, ParentTree(c, t))
  }

  /** A red parent is never the root, so the grandparent exists and is black. */
  lemma {:induction false} RedParentHasParent(c: Ctx, t: Tree)
    requires RedInFocus(c, t) && !c.Top? && c.c == Red
    ensures !c.up.Top? && c.up.c == Black
  {
  }

  lemma {:induction false} ParentOrder(c: Ctx, t: Tree)
    requires !c.Top?
    ensures Order(c, t) == Order(c.up, ParentTree(c, t))
    ensures Plug(c, t) == Plug(c.up, ParentTree(c, t))
  {
  }

  /** The two sides of a rotation list the same nodes in the same order, whatever the colours. */
  lemma {:induction false} RotatedOrder(a: Tree, x: Node, b: Tree, y: Node, d: Tree, i: Color, j: Color, k: Color, l: Color)
    ensures Inorder(N(N(a, x, i, b), y, j, d)) == Inorder(N(a, x, k, N(b, y, l, d)))
  {
    assert Inorder(N(a, x, k, N(b, y, l, d))) == Inorder(a) + [x] + (Inorder(b) + [y] + Inorder(d));
    assert Inorder(N(N(a, x, i, b), y, j, d)) == (Inorder(a) + [x] + Inorder(b)) + [y] + Inorder(d);
  }

  /** Red uncle: recolour the family and move two levels up. */
  ghost function Recolored(g: Tree): Tree
    requires g.N? && g.l.N? && g.r.N?
  {
    N(g.l.(c := Black), g.n, Red, g.r.(c := Black))
  }

  lemma {:induction false} RecolorStep(c: Ctx, t: Tree)
    requires RedInFocus(c, t) && !c.Top? && c.c == Red && !c.up.Top?
    requires var g := GrandTree(c, t); g.l.N? && g.r.N? && g.l.c == g.r.c == Red
    ensures RedInFocus(c.up.up, Recolored(GrandTree(c, t)))
    ensures Order(c.up.up, Recolored(GrandTree(c, t))) == Order(c, t)
  {
    var h := BlackHeight(t);
    assert CtxBalanced(c.up, h) && CtxBalanced(c.up.up, h + 1);
    assert Balanced(ParentTree(c, t).(c := Black));
    ParentOrder(c, t);
    ParentOrder(c.up, ParentTree(c, t));
    assert Inorder(Recolored(GrandTree(c, t))) == Inorder(GrandTree(c, t));
  }

  /** Black uncle, the focus on the inner side: rotating the parent moves it to the outer side. */
  lemma {:induction false} InnerLeftStep(up: Ctx, u: Tree, g: Node, a: Tree, p: Node, t: Tree)
    requires RedInFocus(InRight(InLeft(up, g, Black, u), a, p, Red), t)
    ensures RedInFocus(InLeft(InLeft(up, g, Black, u), t.n, Red, t.r), N(a, p, Red, t.l))
    ensures Order(InLeft(InLeft(up, g, Black, u), t.n, Red, t.r), N(a, p, Red, t.l))
         == Order(InRight(InLeft(up, g, Black, u), a, p, Red), t)
  {
  }

  lemma {:induction false} InnerRightStep(up: Ctx, u: Tree, g: Node, b: Tree, p: Node, t: Tree)
    requires RedInFocus(InLeft(InRight(up, u, g, Black), p, Red, b), t)
    ensures RedInFocus(InRight(InRight(up, u, g, Black), t.l, t.n, Red), N(t.r, p, Red, b))
    ensures Order(InRight(InRight(up, u, g, Black), t.l, t.n, Red), N(t.r, p, Red, b))
         == Order(InLeft(InRight(up, u, g, Black), p, Red, b), t)
  {
  }

  /** Black uncle, the focus on the outer side: rotating the grandparent ends the loop. */
  lemma {:induction false} OuterLeftStep(up: Ctx, u: Tree, g: Node, p: Node, b: Tree, t: Tree)
    requires RedInFocus(InLeft(InLeft(up, g, Black, u), p, Red, b), t) && ColorOf(u) == Black
    ensures RedInFocus(InLeft(up, p, Black, N(b, g, Red, u)), t)
    ensures Order(InLeft(up, p, Black, N(b, g, Red, u)), t)
         == Order(InLeft(InLeft(up, g, Black, u), p, Red, b), t)
  {
    var h := BlackHeight(t);
    assert CtxBalanced(InLeft(up, g, Black, u), h) && CtxBalanced(up, h + 1);
    ParentOrder(InLeft(InLeft(up, g, Black, u), p, Red, b), t);
    ParentOrder(InLeft(up, g, Black, u), N(t, p, Red, b));
    ParentOrder(InLeft(up, p, Black, N(b, g, Red, u)), t);
    RotatedOrder(t, p, b, g, u, Red, Black, Black, Red);
  }

  lemma {:induction false} OuterRightStep(up: Ctx, u: Tree, g: Node, a: Tree, p: Node, t: Tree)
    requires RedInFocus(InRight(InRight(up, u, g, Black), a, p, Red), t) && ColorOf(u) == Black
    ensures RedInFocus(InRight(up, N(u, g, Red, a), p, Black), t)
    ensures Order(InRight(up, N(u, g, Red, a), p, Black), t)
         == Order(InRight(InRight(up, u, g, Black), a, p, Red), t)
  {
    var h := BlackHeight(t);
    assert CtxBalanced(InRight(up, u, g, Black), h) && CtxBalanced(up, h + 1);
    ParentOrder(InRight(InRight(up, u, g, Black), a, p, Red), t);
    ParentOrder(InRight(up, u, g, Black), N(a, p, Red, t));
    ParentOrder(InRight(up, N(u, g, Red, a), p, Black), t);
    RotatedOrder(u, g, a, p, t, Red, Black, Black, Red);
  }

  /** Leaving the loop, painting the root black gives a red-black tree. */
  lemma {:induction false} InsertDone(c: Ctx, t: Tree)
    requires RedInFocus(c, t) && (c.Top? || c.c == Black)
    ensures RedBlack(Blacken(Plug(c, t)))
    ensures !c.Top? ==> Blacken(Plug(c, t)) == Plug(c, t)
  {
    if !c.Top? {
      PlugBalanced(c, t);
    }
  }

  // ---------- the minimum ----------

  /** The leftmost node is `x`, and it is the left child of `m`. */
  ghost predicate MinEdge(t: Tree, m: Node, x: Node) {
    t.N? && t.l.N? && if t.l.l.Nil? then t.n == m && t.l.n == x else MinEdge(t.l, m, x)
  }

  lemma {:induction false} MinEdgeIsLeft(t: Tree, m: Node, x: Node)
    requires MinEdge(t, m, x)
    ensures x in Nodes(t.l)
  {
    if t.l.l.N? {
      MinEdgeIsLeft(t.l, m, x);
    }
  }

  /** If the leftmost node lies properly inside a subtree, so does the leftmost edge. */
  lemma {:induction false} MinEdgeInside(up: Ctx, s: Tree, m: Node, x: Node)
    requires MinEdge(Plug(up, s), m, x) && Separate(up, s) && s.N? && x in Nodes(s) && x != s.n
    ensures MinEdge(s, m, x)
    decreases up
  {
    match up
    case Top =>
    case InLeft(u, n, k, r) =>
      MinEdgeInside(u, N(s, n, k, r), m, x);
    case InRight(u, l, n, k) =>
      MinEdgeInside(u, N(l, n, k, s), m, x);
      MinEdgeIsLeft(N(l, n, k, s), m, x);
  }

  /** The leftmost node never lies below a right child. */
  lemma {:induction false} MinEdgeNotRight(c: Ctx, t: Tree, m: Node, x: Node)
    requires c.InRight? && Separate(c, t) && x in Nodes(t)
    ensures !MinEdge(Plug(c, t), m, x)
  {
    if MinEdge(Plug(c, t), m, x) {
      MinEdgeInside(c.up, N(c.l, c.n, c.c, t), m, x);
      MinEdgeIsLeft(N(c.l, c.n, c.c, t), m, x);
    }
  }

  /** Replacing a subtree around the leftmost edge keeps the edge if the replacement has it. */
  lemma {:induction false} MinEdgeReplace(up: Ctx, s: Tree, s': Tree, m: Node, x: Node)
    requires MinEdge(Plug(up, s), m, x) && Separate(up, s) && s.N? && x in Nodes(s) && x != s.n
    requires MinEdge(s', m, x)
    ensures MinEdge(Plug(up, s'), m, x)
    decreases up
  {
    match up
    case Top =>
    case InLeft(u, n, k, r) => MinEdgeReplace(u, N(s, n, k, r), N(s', n, k, r), m, x);
    case InRight(u, l, n, k) => MinEdgeNotRight(up, s, m, x);
  }

  /** With the parent a left child, both ways of fixing the colours keep the leftmost edge; the
      inner side never holds the leftmost node. */
  lemma {:induction false} LeftParentKeepsMinEdge(c: Ctx, t: Tree, m: Node, x: Node)
    requires !c.Top? && c.up.InLeft? && Separate(c.up.up, GrandTree(c, t)) && x in Nodes(t)
    requires Separate(c, t) && MinEdge(Plug(c, t), m, x)
    ensures c.InLeft?
    ensures c.up.r.N? ==> MinEdge(Plug(c.up.up, Recolored(GrandTree(c, t))), m, x)
    ensures MinEdge(Plug(InLeft(c.up.up, c.n, Black, N(c.r, c.up.n, Red, c.up.r)), t), m, x)
  {
    if c.InRight? {
      MinEdgeNotRight(c, t, m, x);
    }
    var up, g := c.up.up, GrandTree(c, t);
    assert Plug(c, t) == Plug(up, g) by {
      ParentOrder(c, t);
      ParentOrder(c.up, ParentTree(c, t));
    }
    assert x != g.n && x in Nodes(g);
    MinEdgeInside(up, g, m, x);
    MinEdgeReplace(up, g, N(t, c.n, Black, N(c.r, c.up.n, Red, c.up.r)), m, x);
    if c.up.r.N? {
      MinEdgeReplace(up, g, Recolored(g), m, x);
    }
  }

  lemma {:induction false} MinEdgePlug(c: Ctx, s: Tree, m: Node, x: Node)
    requires MinEdge(s, m, x) && Before(c) == []
    ensures MinEdge(Plug(c, s), m, x)
    decreases c
  {
    if !c.Top? {
      assert c.InLeft?;
      MinEdgePlug(c.up, N(s, c.n, c.c, c.r), m, x);
    }
  }

  lemma {:induction false} MinEdgeLink(t: Tree, p: Node?, h: Heap, m: Node, x: Node)
    requires Shape(t, p, h) && MinEdge(t, m, x)
    ensures m in h && h[m].left == x
  {
    if t.l.l.N? {
      MinEdgeLink(t.l, t.n, h, m, x);
    }
  }

  lemma {:induction false} FirstHasNoLeft(t: Tree, p: Node?, h: Heap)
    requires Shape(t, p, h) && t.N?
    ensures |Inorder(t)| > 0 && Inorder(t)[0] in h && h[Inorder(t)[0]].left == null
  {
    if t.l.N? {
      FirstHasNoLeft(t.l, t.n, h);
      assert Inorder(t)[0] == Inorder(t.l)[0];
    }
  }

  /** What a freshly hung leaf brings into the loop. */
  lemma {:induction false} LeafInFocus(c: Ctx, t: Tree, m: Node)
    requires RedInFocus(c, t) && t.l.Nil? && t.r.Nil? && !c.Top?
    requires Before(c) == [] ==> |After(c)| > 0 && m == After(c)[0]
    ensures Order(c, t) == Before(c) + [t.n] + After(c) == Inorder(Plug(c, t))
    ensures Before(c) == [] ==> MinEdge(Plug(c, t), m, t.n)
    ensures c.up.Top? ==> RedBlack(Plug(c, t))
  {
    PlugInorder(c, t);
    PlugBalanced(c, t);
    if Before(c) == [] {
      MinEdgePlug(c.up, ParentTree(c, t), m, t.n);
    }
  }

  /** The test at the end of an insertion: the old minimum `m` has the new node as its left child
      exactly when the new node is the new minimum. */
  lemma {:induction false} MinimumTest(t: Tree, h: Heap, a: seq<Node>, x: Node, b: seq<Node>)
    requires Shape(t, null, h) && Inorder(t) == a + [x] + b && |a| + |b| > 0
    requires a == [] ==> MinEdge(t, b[0], x)
    ensures var m := if a == [] then b[0] else a[0];
            m in h && m in Nodes(t) && (h[m].left == x <==> a == [])
  {
    var m := if a == [] then b[0] else a[0];
    FirstHasNoLeft(t, null, h);
    if a == [] {
      MinEdgeLink(t, null, h, m, x);
    } else {
      assert Inorder(t)[0] == m;
    }
    InorderNodes(t);
    assert Inorder(t)[0] == m || Inorder(t)[1] == m;
  }

  // ---------- order ----------

  ghost predicate SortedKeys(s: seq<Node>) {
    forall i, j :: 0 <= i < j < |s| ==> s[i].key <= s[j].key
  }

  /** `x` placed behind every key that is not greater: equal keys keep insertion order. */
  ghost function Inserted(s: seq<Node>, x: Node): seq<Node> {
    if s == [] then [x]
    else if x.key < s[0].key then [x] + s
    else [s[0]] + Inserted(s[1..], x)
  }

  lemma {:induction false} InsertedBetween(a: seq<Node>, b: seq<Node>, x: Node)
    requires forall y :: y in a ==> y.key <= x.key
    requires forall y :: y in b ==> x.key < y.key
    ensures Inserted(a + b, x) == a + [x] + b
  {
    if a == [] {
      assert a + b == b;
    } else {
      assert (a + b)[1..] == a[1..] + b;
      InsertedBetween(a[1..], b, x);
    }
  }

  lemma {:induction false} InsertedSorted(s: seq<Node>, x: Node)
    requires SortedKeys(s)
    ensures SortedKeys(Inserted(s, x)) && |Inserted(s, x)| == |s| + 1
    ensures forall y :: y in Inserted(s, x) ==> y == x || y in s
  {
    if s != [] && s[0].key <= x.key {
      InsertedSorted(s[1..], x);
      var r := Inserted(s[1..], x);
      forall i | 0 <= i < |r| ensures s[0].key <= r[i].key {
        assert r[i] == x || r[i] in s[1..];
      }
    }
  }

  lemma {:induction false} SortedParts(a: seq<Node>, n: Node, b: seq<Node>)
    requires SortedKeys(a + [n] + b)
    ensures SortedKeys(a) && SortedKeys(b)
    ensures forall y :: y in a ==> y.key <= n.key
    ensures forall y :: y in b ==> n.key <= y.key
  {
    var s := a + [n] + b;
    var m := |a|;
    assert s[m] == n;
    forall i, j | 0 <= i < j < |a|
      ensures a[i].key <= a[j].key
    {
      assert s[i].key <= s[j].key;
    }
    forall i, j | 0 <= i < j < |b|
      ensures b[i].key <= b[j].key
    {
      var i', j' := m + 1 + i, m + 1 + j;
      assert s[i'].key <= s[j'].key;
    }
    forall i | 0 <= i < |a|
      ensures a[i].key <= n.key
    {
      assert s[i].key <= s[m].key;
    }
    forall i | 0 <= i < |b|
      ensures n.key <= b[i].key
    {
      var i' := m + 1 + i;
      assert s[m].key <= s[i'].key;
    }
  }

  /** Every key before the focus is at most its key, every key behind at least. */
  lemma {:induction false} AroundFocus(c: Ctx, t: Tree)
    requires t.N? && SortedKeys(Order(c, t))
    ensures t.n in Order(c, t)
    ensures forall y :: y in Before(InRight(c, t.l, t.n, t.c)) ==> y.key <= t.n.key
    ensures forall y :: y in After(InLeft(c, t.n, t.c, t.r)) ==> t.n.key <= y.key
  {
    var a, b := Before(c) + Inorder(t.l), Inorder(t.r) + After(c);
    assert Order(c, t) == a + [t.n] + b;
    assert (a + [t.n] + b)[|a|] == t.n;
    SortedParts(a, t.n, b);
    assert Before(InRight(c, t.l, t.n, t.c)) == a + [t.n];
    assert After(InLeft(c, t.n, t.c, t.r)) == [t.n] + b;
  }

  lemma {:induction false} AroundNothing(c: Ctx, t: Tree)
    requires t.Nil?
    ensures forall y :: y in Order(c, t) ==> y in Before(c) || y in After(c)
  {
    assert Order(c, t) == Before(c) + After(c);
  }

  /** Where the descent of an insertion ends, hanging the node there is what `Inserted` asks for. */
  lemma {:induction false} PlaceOfNew(c: Ctx, x: Node)
    requires SortedKeys(Inorder(Plug(c, Nil)))
    requires forall y :: y in Before(c) ==> y.key <= x.key
    requires forall y :: y in After(c) ==> x.key < y.key
    ensures Inorder(Plug(c, Nil)) == Before(c) + After(c)
    ensures Inserted(Before(c) + After(c), x) == Before(c) + [x] + After(c)
    ensures SortedKeys(Before(c) + [x] + After(c))
  {
    PlugInorder(c, Nil);
    assert Before(c) + Inorder(Nil) + After(c) == Before(c) + After(c);
    InsertedBetween(Before(c), After(c), x);
    InsertedSorted(Before(c) + After(c), x);
  }

  /** A red leaf in place of an empty link is the only thing wrong with the tree. */
  lemma {:induction false} InsertionBalance(c: Ctx, x: Node, leaf: Tree)
    requires RedBlack(Plug(c, Nil)) && leaf == N(Nil, x, Red, Nil)
    ensures RedInFocus(c, leaf) && Nodes(leaf) == {x}
    ensures Nodes(Plug(c, Nil)) == CtxNodes(c)
    ensures !c.Top? ==> |Before(c)| + |After(c)| > 0
  {
    PlugBalanced(c, Nil);
    PlugNodes(c, Nil);
    assert leaf.l == Nil && leaf.r == Nil;
  }

  lemma {:induction false} InsertionPoint(c: Ctx, x: Node, leaf: Tree)
    requires RedBlack(Plug(c, Nil)) && SortedKeys(Inorder(Plug(c, Nil))) && leaf == N(Nil, x, Red, Nil)
    requires forall y :: y in Before(c) ==> y.key <= x.key
    requires forall y :: y in After(c) ==> x.key < y.key
    ensures Inorder(Plug(c, Nil)) == Before(c) + After(c)
    ensures Inserted(Before(c) + After(c), x) == Before(c) + [x] + After(c)
    ensures SortedKeys(Before(c) + [x] + After(c))
    ensures RedInFocus(c, leaf) && Nodes(leaf) == {x}
    ensures Nodes(Plug(c, Nil)) == CtxNodes(c)
    ensures !c.Top? ==> |Before(c)| + |After(c)| > 0
  {
    PlaceOfNew(c, x);
    InsertionBalance(c, x, leaf);
  }
}
