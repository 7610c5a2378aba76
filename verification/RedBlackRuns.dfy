/** `AK/RedBlackTree.h`: runs of insertions and removals. */
module RedBlackRuns {
  import opened RedBlackShape
  import opened RedBlackFixups
  import opened RedBlackRelink
  import opened RedBlackTree

  datatype Op = InsertOp(key: int) | RemoveOp(key: int)

  /** The sorted keys that a run of operations must leave. */
  ghost function KeysAfter(ops: seq<Op>): seq<int> {
    if ops == [] then [] else
      var before := KeysAfter(ops[..|ops| - 1]);
      match ops[|ops| - 1]
      case InsertOp(k) => WithKey(before, k)
      case RemoveOp(k) => WithoutKey(before, k)
  }

  /** `x` stands before `y`: it has the smaller key, or the same key and was inserted earlier. */
  ghost predicate Earlier(x: Node, y: Node, birth: map<Node, nat>)
    requires x in birth && y in birth
  {
    x.key < y.key || (x.key == y.key && birth[x] < birth[y])
  }

  /** Sorted by key and, among equal keys, by the time of insertion. */
  ghost predicate InBirthOrder(s: seq<Node>, birth: map<Node, nat>) {
    (forall i :: 0 <= i < |s| ==> s[i] in birth) &&
    forall i, j :: 0 <= i < j < |s| ==> Earlier(s[i], s[j], birth)
  }

  /** Every node was inserted by the operation that its time of insertion names. */
  ghost predicate BornIn(ops: seq<Op>, s: seq<Node>, birth: map<Node, nat>) {
    forall x :: x in s ==> x in birth && birth[x] < |ops| && ops[birth[x]] == InsertOp(x.key)
  }

  lemma {:induction false} OrderOfRest(s: seq<Node>, birth: map<Node, nat>)
    requires InBirthOrder(s, birth) && s != []
    ensures InBirthOrder(s[1..], birth) && s[0] in birth
    ensures forall y :: y in s[1..] ==> y in birth && Earlier(s[0], y, birth)
  {
    hide Earlier;
    var r := s[1..];
    assert forall i :: 0 <= i < |r| ==> r[i] == s[i + 1];
    forall i, j | 0 <= i < j < |r| ensures Earlier(r[i], r[j], birth) {
      var i', j' := i + 1, j + 1;
      assert Earlier(s[i'], s[j'], birth);
    }
  }

  lemma {:induction false} OrderInFront(x: Node, s: seq<Node>, birth: map<Node, nat>)
    requires InBirthOrder(s, birth) && x in birth
    requires forall y :: y in s ==> y in birth && Earlier(x, y, birth)
    ensures InBirthOrder([x] + s, birth)
  {
    hide Earlier;
    var r := [x] + s;
    assert forall i :: 0 < i < |r| ==> r[i] == s[i - 1];
    forall i, j | 0 <= i < j < |r| ensures Earlier(r[i], r[j], birth) {
      var i', j' := i - 1, j - 1;
      assert s[j'] in s;
      if i > 0 {
        assert Earlier(s[i'], s[j'], birth);
      }
    }
  }

  lemma {:induction false} BornLater(s: seq<Node>, x: Node, birth: map<Node, nat>, time: nat)
    requires InBirthOrder(s, birth) && x !in s
    ensures InBirthOrder(s, birth[x := time])
  {
    forall i, j | 0 <= i < j < |s| ensures Earlier(s[i], s[j], birth[x := time]) {
      assert Earlier(s[i], s[j], birth);
    }
  }

  lemma {:induction false} InsertedMembers(s: seq<Node>, x: Node)
    ensures forall y :: y in Inserted(s, x) ==> y == x || y in s
  {
    if s != [] {
      InsertedMembers(s[1..], x);
    }
  }

  lemma {:induction false} RemovedMembers(s: seq<Node>, x: Node)
    ensures forall y :: y in Removed(s, x) ==> y in s
  {
    if s != [] {
      RemovedMembers(s[1..], x);
    }
  }

  /** The newest node goes behind the equal keys. */
  lemma {:induction false} InsertedInOrder(s: seq<Node>, x: Node, birth: map<Node, nat>)
    requires InBirthOrder(s, birth) && x in birth
    requires forall y :: y in s && y in birth ==> birth[y] < birth[x]
    ensures InBirthOrder(Inserted(s, x), birth)
  {
    hide InBirthOrder;
    if s == [] {
      OneInOrder(x, birth);
    } else {
      OrderOfRest(s, birth);
      if x.key < s[0].key {
        assert s == [s[0]] + s[1..];
        OrderInFront(x, s, birth);
      } else {
        InsertedMembers(s[1..], x);
        InsertedInOrder(s[1..], x, birth);
        assert s[0] in s;
        OrderInFront(s[0], Inserted(s[1..], x), birth);
      }
    }
  }

  lemma {:induction false} OneInOrder(x: Node, birth: map<Node, nat>)
    requires x in birth
    ensures InBirthOrder([x], birth)
  {
  }

  lemma {:induction false} RemovedInOrder(s: seq<Node>, x: Node, birth: map<Node, nat>)
    requires InBirthOrder(s, birth)
    ensures InBirthOrder(Removed(s, x), birth)
  {
    hide InBirthOrder, Earlier;
    if s != [] {
      OrderOfRest(s, birth);
      RemovedMembers(s[1..], x);
      RemovedInOrder(s[1..], x, birth);
      if s[0] != x {
        OrderInFront(s[0], Removed(s[1..], x), birth);
      }
    }
  }

  lemma {:induction false} AfterInsertion(ops: seq<Op>, s: seq<Node>, x: Node, birth: map<Node, nat>)
    requires InBirthOrder(s, birth) && BornIn(ops, s, birth) && x !in s
    ensures InBirthOrder(Inserted(s, x), birth[x := |ops|])
    ensures BornIn(ops + [InsertOp(x.key)], Inserted(s, x), birth[x := |ops|])
  {
    hide InBirthOrder;
    BornLater(s, x, birth, |ops|);
    InsertedInOrder(s, x, birth[x := |ops|]);
    InsertedMembers(s, x);
  }

  lemma {:induction false} AfterRemoval(ops: seq<Op>, s: seq<Node>, x: Node, birth: map<Node, nat>)
    requires InBirthOrder(s, birth) && BornIn(ops, s, birth)
    ensures InBirthOrder(Removed(s, x), birth) && BornIn(ops, Removed(s, x), birth)
  {
    hide InBirthOrder;
    RemovedInOrder(s, x, birth);
    RemovedMembers(s, x);
  }

  lemma {:induction false} BornEarlier(ops: seq<Op>, more: seq<Op>, s: seq<Node>, birth: map<Node, nat>)
    requires BornIn(ops, s, birth)
    ensures BornIn(ops + more, s, birth)
  {
  }

  /** One operation of a run on a tree. */
  method Perform(tree: BaseRedBlackTree, op: Op, ghost ops: seq<Op>, ghost birth: map<Node, nat>)
    returns (ghost now: map<Node, nat>)
    requires tree.Valid()
    requires InBirthOrder(Inorder(tree.shape), birth) && BornIn(ops, Inorder(tree.shape), birth)
    requires KeysOf(Inorder(tree.shape)) == KeysAfter(ops)
    modifies tree, Nodes(tree.shape)
    ensures tree.Valid() && forall n :: n in Nodes(tree.shape) && n !in old(Nodes(tree.shape)) ==> fresh(n)
    ensures InBirthOrder(Inorder(tree.shape), now) && BornIn(ops + [op], Inorder(tree.shape), now)
    ensures KeysOf(Inorder(tree.shape)) == KeysAfter(ops + [op])
  {
    hide BaseRedBlackTree.Valid, InBirthOrder, BornIn;
    ghost var s := Inorder(tree.shape);
    assert (ops + [op])[..|ops|] == ops;
    now := birth;
    match op {
      case InsertOp(k) =>
        var node := tree.InsertKey(k);
        now := birth[node := |ops|];
        AfterInsertion(ops, s, node, birth);
      case RemoveOp(k) =>
        var found := tree.RemoveKey(k);
        if found {
          ghost var n :| n in s && n.key == k && Inorder(tree.shape) == Removed(s, n);
          AfterRemoval(ops, s, n, birth);
        }
        BornEarlier(ops, [op], Inorder(tree.shape), birth);
    }
  }

  /** Every run of insertions and removals from the empty tree leaves a valid red-black tree: the keys that a sorted
      list would hold, equal keys in the order of their insertion. */
  method Replay(ops: seq<Op>) returns (tree: BaseRedBlackTree, ghost birth: map<Node, nat>)
    ensures fresh(tree) && tree.Valid() && KeysOf(Inorder(tree.shape)) == KeysAfter(ops)
    ensures InBirthOrder(Inorder(tree.shape), birth) && BornIn(ops, Inorder(tree.shape), birth)
  {
    hide BaseRedBlackTree.Valid, InBirthOrder, BornIn;
    tree := new BaseRedBlackTree();
    birth := map[];
    NothingBorn();
    for i := 0 to |ops|
      invariant fresh(tree) && tree.Valid() && fresh(Nodes(tree.shape))
      invariant KeysOf(Inorder(tree.shape)) == KeysAfter(ops[..i])
      invariant InBirthOrder(Inorder(tree.shape), birth) && BornIn(ops[..i], Inorder(tree.shape), birth)
    {
      assert ops[..i + 1] == ops[..i] + [ops[i]];
      birth := Perform(tree, ops[i], ops[..i], birth);
    }
    assert ops[..|ops|] == ops;
  }

  lemma {:induction false} NothingBorn()
    ensures InBirthOrder([], map[]) && BornIn([], [], map[])
  {
  }
}
