/** What each removal fix-up step does to balance and order, on the ghost picture alone. */
module RedBlackDeficit {
  import opened RedBlackShape
  import opened RedBlackFixups

  /** The state of the removal loop: every path through the subtree in focus is one black node
      short, and nothing else is wrong. */
  ghost predicate ShortInFocus(c: Ctx, t: Tree) {
    Balanced(Blacken(t)) && CtxBalanced(c, BlackHeight(t) + 1)
  }

  /** A black subtree that is one short always has a sibling to borrow from. */
  lemma {:induction false} ShortHasSibling(c: Ctx, t: Tree)
    requires ShortInFocus(c, t) && ColorOf(t) == Black
    ensures c.InLeft? ==> c.r.N?
    ensures c.InRight? ==> c.l.N?
  {
  }

  /** Red sibling: rotating it above the parent leaves a black sibling. */
  lemma {:induction false} RedSiblingRight(up: Ctx, p: Node, k: Color, s: Tree, t: Tree)
    requires ShortInFocus(InLeft(up, p, k, s), t) && ColorOf(t) == Black && s.N? && s.c == Red
    ensures k == Black && ShortInFocus(InLeft(InLeft(up, s.n, Black, s.r), p, Red, s.l), t)
    ensures s.l.N? && s.l.c == Black
    ensures Order(InLeft(InLeft(up, s.n, Black, s.r), p, Red, s.l), t) == Order(InLeft(up, p, k, s), t)
  {
    ParentOrder(InLeft(up, p, k, s), t);
    ParentOrder(InLeft(InLeft(up, s.n, Black, s.r), p, Red, s.l), t);
    ParentOrder(InLeft(up, s.n, Black, s.r), N(t, p, Red, s.l));
    RotatedOrder(t, p, s.l, s.n, s.r, Red, Black, k, Red);
    assert N(s.l, s.n, Red, s.r) == s;
  }

  lemma {:induction false} RedSiblingLeft(up: Ctx, p: Node, k: Color, s: Tree, t: Tree)
    requires ShortInFocus(InRight(up, s, p, k), t) && ColorOf(t) == Black && s.N? && s.c == Red
    ensures k == Black && ShortInFocus(InRight(InRight(up, s.l, s.n, Black), s.r, p, Red), t)
    ensures s.r.N? && s.r.c == Black
    ensures Order(InRight(InRight(up, s.l, s.n, Black), s.r, p, Red), t) == Order(InRight(up, s, p, k), t)
  {
    ParentOrder(InRight(up, s, p, k), t);
    ParentOrder(InRight(InRight(up, s.l, s.n, Black), s.r, p, Red), t);
    ParentOrder(InRight(up, s.l, s.n, Black), N(s.r, p, Red, t));
    RotatedOrder(s.l, s.n, s.r, p, t, Red, k, Black, Red);
    assert N(s.l, s.n, Red, s.r) == s;
  }

  /** Black sibling with black children: painting it red moves the shortage to the parent. */
  lemma {:induction false} BlackNephewsRight(up: Ctx, p: Node, k: Color, s: Tree, t: Tree)
    requires ShortInFocus(InLeft(up, p, k, s), t) && ColorOf(t) == Black && s.N? && s.c == Black
    requires ColorOf(s.l) == ColorOf(s.r) == Black
    ensures ShortInFocus(up, N(t, p, k, s.(c := Red)))
    ensures Order(up, N(t, p, k, s.(c := Red))) == Order(InLeft(up, p, k, s), t)
  {
    ParentOrder(InLeft(up, p, k, s), t);
    assert Inorder(s.(c := Red)) == Inorder(s);
  }

  lemma {:induction false} BlackNephewsLeft(up: Ctx, p: Node, k: Color, s: Tree, t: Tree)
    requires ShortInFocus(InRight(up, s, p, k), t) && ColorOf(t) == Black && s.N? && s.c == Black
    requires ColorOf(s.l) == ColorOf(s.r) == Black
    ensures ShortInFocus(up, N(s.(c := Red), p, k, t))
    ensures Order(up, N(s.(c := Red), p, k, t)) == Order(InRight(up, s, p, k), t)
  {
    ParentOrder(InRight(up, s, p, k), t);
    assert Inorder(s.(c := Red)) == Inorder(s);
  }

  /** Black sibling with only the near child red: that child exists, and a rotation moves the
      red to the far side. */
  lemma {:induction false} NearNephewRight(up: Ctx, p: Node, k: Color, s: Tree, t: Tree)
    requires ShortInFocus(InLeft(up, p, k, s), t) && s.N? && s.c == Black
    requires ColorOf(s.r) == Black && ColorOf(s.l) == Red
    ensures var s' := N(s.l.l, s.l.n, Black, N(s.l.r, s.n, Red, s.r));
            ShortInFocus(InLeft(up, p, k, s'), t) && Order(InLeft(up, p, k, s'), t) == Order(InLeft(up, p, k, s), t)
  {
    assert Balanced(s) && Balanced(s.l) && Balanced(s.r);
    var s' := N(s.l.l, s.l.n, Black, N(s.l.r, s.n, Red, s.r));
    assert Balanced(s'.r) && Balanced(s') && BlackHeight(s') == BlackHeight(s);
    RotatedOrder(s.l.l, s.l.n, s.l.r, s.n, s.r, Red, Black, Black, Red);
    assert N(N(s.l.l, s.l.n, Red, s.l.r), s.n, Black, s.r) == s;
  }

  lemma {:induction false} NearNephewLeft(up: Ctx, p: Node, k: Color, s: Tree, t: Tree)
    requires ShortInFocus(InRight(up, s, p, k), t) && s.N? && s.c == Black
    requires ColorOf(s.l) == Black && ColorOf(s.r) == Red
    ensures var s' := N(N(s.l, s.n, Red, s.r.l), s.r.n, Black, s.r.r);
            ShortInFocus(InRight(up, s', p, k), t) && Order(InRight(up, s', p, k), t) == Order(InRight(up, s, p, k), t)
  {
    assert Balanced(s) && Balanced(s.l) && Balanced(s.r);
    var s' := N(N(s.l, s.n, Red, s.r.l), s.r.n, Black, s.r.r);
    assert Balanced(s'.l) && Balanced(s') && BlackHeight(s') == BlackHeight(s);
    RotatedOrder(s.l, s.n, s.r.l, s.r.n, s.r.r, Red, Black, Black, Red);
    assert N(s.l, s.n, Black, N(s.r.l, s.r.n, Red, s.r.r)) == s;
  }

  /** Black sibling with the far child red: one rotation repairs the whole tree. */
  lemma {:induction false} FarNephewRight(up: Ctx, p: Node, k: Color, s: Tree, t: Tree)
    requires ShortInFocus(InLeft(up, p, k, s), t) && ColorOf(t) == Black && s.N? && s.c == Black
    requires ColorOf(s.r) == Red
    ensures var w := N(N(t, p, Black, s.l), s.n, k, s.r.(c := Black));
            RedBlack(Plug(up, w)) && Inorder(Plug(up, w)) == Order(InLeft(up, p, k, s), t)
  {
    var w := N(N(t, p, Black, s.l), s.n, k, s.r.(c := Black));
    assert Blacken(t) == t && Balanced(s) && Balanced(s.r) && Balanced(s.r.(c := Black));
    assert Balanced(N(t, p, Black, s.l)) && Balanced(w);
    assert BlackHeight(w) == BlackHeight(t) + 1 + Weight(k);
    PlugBalanced(up, w);
    PlugInorder(up, w);
    ParentOrder(InLeft(up, p, k, s), t);
    RotatedOrder(t, p, s.l, s.n, s.r, Black, k, k, Black);
    assert N(s.l, s.n, Black, s.r) == s;
    assert Inorder(s.r.(c := Black)) == Inorder(s.r);
  }

  lemma {:induction false} FarNephewLeft(up: Ctx, p: Node, k: Color, s: Tree, t: Tree)
    requires ShortInFocus(InRight(up, s, p, k), t) && ColorOf(t) == Black && s.N? && s.c == Black
    requires ColorOf(s.l) == Red
    ensures var w := N(s.l.(c := Black), s.n, k, N(s.r, p, Black, t));
            RedBlack(Plug(up, w)) && Inorder(Plug(up, w)) == Order(InRight(up, s, p, k), t)
  {
    var w := N(s.l.(c := Black), s.n, k, N(s.r, p, Black, t));
    assert Blacken(t) == t && Balanced(s) && Balanced(s.l) && Balanced(s.l.(c := Black));
    assert Balanced(N(s.r, p, Black, t)) && Balanced(w);
    assert BlackHeight(w) == BlackHeight(t) + 1 + Weight(k);
    PlugBalanced(up, w);
    PlugInorder(up, w);
    ParentOrder(InRight(up, s, p, k), t);
    RotatedOrder(s.l, s.n, s.r, p, t, Black, k, k, Black);
    assert N(s.l, s.n, Black, s.r) == s;
    assert Inorder(s.l.(c := Black)) == Inorder(s.l);
  }

  /** A repaired tree, seen as the focus at the root. */
  lemma {:induction false} WholeInFocus(t: Tree)
    requires RedBlack(t) && t.N?
    ensures ShortInFocus(Top, t) && Order(Top, t) == Inorder(t)
  {
  }

  /** Leaving the loop at the root or at a red node, painting the focus black repairs the tree. */
  lemma {:induction false} ShortDone(c: Ctx, t: Tree)
    requires ShortInFocus(c, t) && t.N? && (c.Top? || t.c == Red)
    ensures RedBlack(Plug(c, t.(c := Black))) && Inorder(Plug(c, t.(c := Black))) == Order(c, t)
  {
    PlugBalanced(c, t.(c := Black));
    PlugInorder(c, t.(c := Black));
    assert Inorder(t.(c := Black)) == Inorder(t);
  }
}
