/** `AK/BinaryHeap.h`: a binary heap whose elements know their place. */
module BinaryHeap {
  import opened QuickSort

  function Parent(k: int): int {
    (k - 1) / 2
  }

  /** The element at `k` is not below its parent. */
  ghost predicate InOrder<T>(less: Order<T>, s: seq<T>, k: int) {
    0 < k < |s| ==> !less(s[k], s[Parent(k)])
  }

  ghost predicate IsHeap<T>(less: Order<T>, s: seq<T>) {
    forall k :: 0 < k < |s| ==> InOrder(less, s, k)
  }

  /** The children of `i` are not below its parent. */
  ghost predicate Bridged<T>(less: Order<T>, s: seq<T>, i: int) {
    forall k :: 0 < k < |s| && Parent(k) == i && 0 < i < |s| ==> !less(s[k], s[Parent(i)])
  }

  /** A heap but for the element at `i`, which may be below its parent. */
  ghost predicate HeapButUp<T>(less: Order<T>, s: seq<T>, i: int) {
    Bridged(less, s, i) && forall k :: 0 < k < |s| && k != i ==> InOrder(less, s, k)
  }

  /** From `lo` on, a heap but for the element at `i`, which may be above its children. */
  ghost predicate HeapButDown<T>(less: Order<T>, s: seq<T>, lo: int, i: int) {
    && (Parent(i) >= lo ==> Bridged(less, s, i))
    && forall k :: 0 < k < |s| && Parent(k) >= lo && Parent(k) != i ==> InOrder(less, s, k)
  }

  /** A heap but for the element at `i`, which may be anything. */
  ghost predicate HeapButBoth<T>(less: Order<T>, s: seq<T>, i: int) {
    Bridged(less, s, i) && forall k :: 0 < k < |s| && k != i && Parent(k) != i ==> InOrder(less, s, k)
  }

  ghost predicate HeapFrom<T>(less: Order<T>, s: seq<T>, lo: int) {
    forall k :: 0 < k < |s| && Parent(k) >= lo ==> InOrder(less, s, k)
  }

  // ---------- steps ----------

  lemma {:induction false} UpStep<T(!new)>(less: Order<T>, s: seq<T>, i: int)
    requires WeakOrder(less) && HeapButUp(less, s, i) && 0 < i < |s| && !less(s[Parent(i)], s[i])
    ensures HeapButUp(less, Swapped(s, i, Parent(i)), Parent(i))
  {
    var p := Parent(i);
    var s' := Swapped(s, i, p);
    forall k | 0 < k < |s'| && k != p
      ensures InOrder(less, s', k)
    {
      assert k != i ==> InOrder(less, s, k);
    }
    forall k | 0 < k < |s'| && Parent(k) == p && 0 < p < |s'|
      ensures !less(s'[k], s'[Parent(p)])
    {
      assert InOrder(less, s, p);
      assert k != i ==> InOrder(less, s, k);
    }
  }

  lemma {:induction false} UpEnds<T(!new)>(less: Order<T>, s: seq<T>, i: int)
    requires WeakOrder(less) && HeapButUp(less, s, i) && 0 <= i < |s| && (i == 0 || less(s[Parent(i)], s[i]))
    ensures IsHeap(less, s)
  {
  }

  lemma {:induction false} DownStep<T(!new)>(less: Order<T>, s: seq<T>, lo: int, i: int, c: int, other: int)
    requires WeakOrder(less) && HeapButDown(less, s, lo, i) && 0 <= lo <= i < c < |s|
    requires (c == 2 * i + 1 && other == 2 * i + 2) || (c == 2 * i + 2 && other == 2 * i + 1)
    requires other < |s| ==> !less(s[other], s[c])
    requires !less(s[i], s[c])
    ensures HeapButDown(less, Swapped(s, i, c), lo, c)
  {
    var s' := Swapped(s, i, c);
    forall k | 0 < k < |s'| && Parent(k) >= lo && Parent(k) != c
      ensures InOrder(less, s', k)
    {
      assert Parent(k) != i ==> InOrder(less, s, k);
      assert Parent(k) == i ==> k == c || k == other;
    }
    forall k | 0 < k < |s'| && Parent(k) == c && 0 < c < |s'|
      ensures !less(s'[k], s'[Parent(c)])
    {
      assert InOrder(less, s, k);
    }
  }

  lemma {:induction false} DownEnds<T(!new)>(less: Order<T>, s: seq<T>, lo: int, i: int, c: int, other: int)
    requires WeakOrder(less) && HeapButDown(less, s, lo, i) && 0 <= lo <= i
    requires (c == 2 * i + 1 && other == 2 * i + 2) || (c == 2 * i + 2 && other == 2 * i + 1)
    requires c < |s| && i < |s| ==> less(s[i], s[c]) && (other < |s| ==> !less(s[other], s[c]))
    requires c >= |s| ==> 2 * i + 1 >= |s|
    ensures HeapFrom(less, s, lo)
  {
    forall k | 0 < k < |s| && Parent(k) >= lo
      ensures InOrder(less, s, k)
    {
      if Parent(k) == i {
        assert k == c || k == other;
      }
    }
  }

  lemma {:induction false} LiftStarts<T(!new)>(less: Order<T>, s: seq<T>, i: int)
    requires WeakOrder(less) && IsHeap(less, s) && 0 <= i < |s|
    ensures HeapButBoth(less, s, i)
  {
    forall k | 0 < k < |s| && Parent(k) == i && 0 < i < |s|
      ensures !less(s[k], s[Parent(i)])
    {
      assert InOrder(less, s, k) && InOrder(less, s, i);
    }
  }

  lemma {:induction false} LiftStep<T(!new)>(less: Order<T>, s: seq<T>, i: int)
    requires WeakOrder(less) && HeapButBoth(less, s, i) && 0 < i < |s|
    ensures HeapButBoth(less, Swapped(s, i, Parent(i)), Parent(i))
  {
    var p := Parent(i);
    var s' := Swapped(s, i, p);
    forall k | 0 < k < |s'| && k != p && Parent(k) != p
      ensures InOrder(less, s', k)
    {
      assert Parent(k) != i ==> InOrder(less, s, k);
    }
    forall k | 0 < k < |s'| && Parent(k) == p && 0 < p < |s'|
      ensures !less(s'[k], s'[Parent(p)])
    {
      assert InOrder(less, s, p);
      assert k != i ==> InOrder(less, s, k);
    }
  }

  /** The last element takes the place of the root. */
  lemma {:induction false} RootReplaced<T>(less: Order<T>, s: seq<T>)
    requires HeapButBoth(less, s, 0) && s != []
    ensures HeapButDown(less, Swapped(s, 0, |s| - 1)[..|s| - 1], 0, 0)
  {
    var s' := Swapped(s, 0, |s| - 1)[..|s| - 1];
    forall k | 0 < k < |s'| && Parent(k) >= 0 && Parent(k) != 0
      ensures InOrder(less, s', k)
    {
      assert InOrder(less, s, k);
    }
  }

  lemma {:induction false} Appended<T>(less: Order<T>, s: seq<T>, x: T)
    requires IsHeap(less, s)
    ensures HeapButUp(less, s + [x], |s|)
  {
    var s' := s + [x];
    forall k | 0 < k < |s'| && k != |s|
      ensures InOrder(less, s', k)
    {
      assert InOrder(less, s, k);
    }
  }

  /** The root is a least element. */
  lemma {:induction false} RootIsLeast<T(!new)>(less: Order<T>, s: seq<T>, k: int)
    requires WeakOrder(less) && IsHeap(less, s) && 0 <= k < |s|
    ensures !less(s[k], s[0])
    decreases k
  {
    if k > 0 {
      RootIsLeast(less, s, Parent(k));
      assert InOrder(less, s, k);
    }
  }

  // ---------- the heap ----------

  datatype Node<T> = Node(value: T, index: int)

  ghost function ValuesOf<T>(nodes: seq<Node<T>>): (r: seq<T>)
    ensures |r| == |nodes|
  {
    seq(|nodes|, i requires 0 <= i < |nodes| => nodes[i].value)
  }

  /** Every element has its own place recorded. */
  ghost predicate Indexed<T>(nodes: seq<Node<T>>) {
    forall i :: 0 <= i < |nodes| ==> nodes[i].index == i
  }

  /** Every element has its own place recorded, or is the one that stood there before. */
  ghost predicate Placed<T>(before: seq<Node<T>>, nodes: seq<Node<T>>) {
    |nodes| == |before| && forall i :: 0 <= i < |nodes| ==> nodes[i].index == i || nodes[i] == before[i]
  }

  lemma {:induction false} PlacedTwice<T>(a: seq<Node<T>>, b: seq<Node<T>>, c: seq<Node<T>>)
    requires Placed(a, b) && Placed(b, c)
    ensures Placed(a, c)
  {
  }

  lemma {:induction false} PlacedAlready<T>(nodes: seq<Node<T>>)
    ensures Placed(nodes, nodes)
  {
  }

  lemma {:induction false} PlacedKeepsIndexed<T>(before: seq<Node<T>>, nodes: seq<Node<T>>)
    requires Placed(before, nodes)
    ensures Indexed(before) ==> Indexed(nodes)
  {
  }

  /** Both children of `i` are above it. */
  ghost predicate AboveChildren<T>(less: Order<T>, s: seq<T>, i: int) {
    0 <= i < |s| ==> forall k :: (k == 2 * i + 1 || k == 2 * i + 2) && k < |s| ==> less(s[i], s[k])
  }

  /** A heap in which every element is above its parent. */
  ghost predicate StrictHeap<T>(less: Order<T>, s: seq<T>) {
    forall i :: 0 <= i < |s| ==> AboveChildren(less, s, i)
  }

  lemma {:induction false} AboveChild<T>(less: Order<T>, s: seq<T>, i: nat, k: nat)
    requires k < |s| && (k == 2 * i + 1 || k == 2 * i + 2)
    ensures AboveChildren(less, s, i) ==> less(s[i], s[k])
  {
  }

  class IntrusiveBinaryHeap<T(!new)> {
    const less: Order<T>
    var nodes: seq<Node<T>>

    ghost predicate Valid()
      reads this
    {
      WeakOrder(less) && IsHeap(less, Values())
    }

    ghost function Values(): seq<T>
      reads this
    {
      ValuesOf(nodes)
    }

    constructor Empty(less: Order<T>)
      requires WeakOrder(less)
      ensures Valid() && Values() == [] && Indexed(nodes) && this.less == less
    {
      this.less := less;
      nodes := [];
    }

    /** Builds a heap of all nodes at once. It records the indices of the nodes that it moves and no others; nodes
        that are a strict heap already it does not move. */
    constructor FromNodes(less: Order<T>, nodes: seq<Node<T>>)
      requires WeakOrder(less)
      ensures Valid() && this.less == less
      ensures multiset(Values()) == multiset(ValuesOf(nodes))
      ensures Placed(nodes, this.nodes) && (Indexed(nodes) ==> Indexed(this.nodes))
      ensures StrictHeap(less, ValuesOf(nodes)) ==> this.nodes == nodes
    {
      this.less := less;
      this.nodes := nodes;
      new;
      hide WeakOrder, IsHeap, HeapFrom, HeapButDown, Rearranged, ValuesOf, Placed, Indexed, AboveChildren;
      ghost var was := Values();
      RearrangedNothing(was, 0, |was|);
      PlacedAlready(nodes);
      var i: nat := |nodes| / 2;
      LeavesAreHeaps(less, Values(), i);
      while i > 0
        invariant i <= |nodes| / 2 && |this.nodes| == |nodes| && HeapFrom(less, Values(), i)
        invariant Rearranged(was, Values(), 0, |nodes|) && Placed(nodes, this.nodes)
        invariant StrictHeap(less, was) ==> this.nodes == nodes
        modifies this`nodes
      {
        i := i - 1;
        SubheapStarts(less, Values(), i);
        ghost var now, before := Values(), this.nodes;
        HeapifyDown(i, i);
        RearrangedTwice(was, now, Values(), 0, |nodes|);
        PlacedTwice(nodes, before, this.nodes);
      }
      PlacedKeepsIndexed(nodes, this.nodes);
      WholeIsHeap(less, Values());
      WholeMultiset(was, Values());
    }

    method SwapIndices(i: nat, j: nat)
      requires i < |nodes| && j < |nodes|
      modifies this`nodes
      ensures Values() == Swapped(old(Values()), i, j)
      ensures Placed(old(nodes), nodes) && (old(Indexed(nodes)) ==> Indexed(nodes))
    {
      nodes := nodes[i := nodes[j]][j := nodes[i]];
      nodes := nodes[i := nodes[i].(index := i)];
      nodes := nodes[j := nodes[j].(index := j)];
    }

    predicate CompareIndices(i: nat, j: nat)
      requires i < |nodes| && j < |nodes|
      reads this
    {
      less(nodes[i].value, nodes[j].value)
    }

    method HeapifyUp(i0: nat)
      requires WeakOrder(less) && i0 < |nodes| && HeapButUp(less, Values(), i0)
      modifies this`nodes
      ensures Valid() && Rearranged(old(Values()), Values(), 0, |old(nodes)|)
      ensures old(Indexed(nodes)) ==> Indexed(nodes)
    {
      hide WeakOrder, IsHeap, HeapButUp, Rearranged, Swapped;
      ghost var was := Values();
      RearrangedNothing(was, 0, |was|);
      var i: nat := i0;
      while i != 0
        invariant i < |nodes| == |was| && HeapButUp(less, Values(), i) && Rearranged(was, Values(), 0, |was|)
        invariant old(Indexed(nodes)) ==> Indexed(nodes)
      {
        var parent := (i - 1) / 2;
        if CompareIndices(parent, i) {
          break;
        }
        UpStep(less, Values(), i);
        RearrangedSwap(Values(), 0, |was|, i, parent);
        RearrangedTwice(was, Values(), Swapped(Values(), i, parent), 0, |was|);
        SwapIndices(i, parent);
        i := parent;
      }
      UpEnds(less, Values(), i);
    }

    method HeapifyDown(i0: nat, ghost lo: nat)
      requires WeakOrder(less) && lo <= i0 && HeapButDown(less, Values(), lo, i0)
      modifies this`nodes
      ensures HeapFrom(less, Values(), lo) && Rearranged(old(Values()), Values(), 0, |old(nodes)|)
      ensures Placed(old(nodes), nodes) && (old(Indexed(nodes)) ==> Indexed(nodes))
      ensures old(AboveChildren(less, Values(), i0)) ==> nodes == old(nodes)
    {
      hide WeakOrder, IsHeap, HeapButDown, HeapFrom, Rearranged, Swapped, Placed, Indexed, AboveChildren;
      ghost var was, start, above := Values(), nodes, AboveChildren(less, Values(), i0);
      RearrangedNothing(was, 0, |was|);
      PlacedAlready(nodes);
      var i: nat := i0;
      ghost var least, rest := 2 * i + 1, 2 * i + 2;
      while i * 2 + 1 < |nodes|
        invariant lo <= i && |nodes| == |was| && HeapButDown(less, Values(), lo, i) && Rearranged(was, Values(), 0, |was|)
        invariant Placed(start, nodes)
        invariant above ==> nodes == start && i == i0
        invariant least == 2 * i + 1 && rest == 2 * i + 2
        decreases |nodes| - i
      {
        var minChild := i * 2 + 1;
        var otherChild := i * 2 + 2;
        if otherChild < |nodes| && CompareIndices(otherChild, minChild) {
          NotBoth(less, nodes[otherChild].value, nodes[minChild].value);
          minChild := otherChild;
          least, rest := 2 * i + 2, 2 * i + 1;
        }
        AboveChild(less, Values(), i, minChild);
        if CompareIndices(i, minChild) {
          break;
        }
        DownStep(less, Values(), lo, i, least, rest);
        RearrangedSwap(Values(), 0, |was|, i, minChild);
        RearrangedTwice(was, Values(), Swapped(Values(), i, minChild), 0, |was|);
        ghost var before := nodes;
        SwapIndices(i, minChild);
        PlacedTwice(start, before, nodes);
        i := minChild;
        least, rest := 2 * i + 1, 2 * i + 2;
      }
      DownEnds(less, Values(), lo, i, least, rest);
      PlacedKeepsIndexed(start, nodes);
    }

    method Insert(value: T)
      requires Valid()
      modifies this`nodes
      ensures Valid() && multiset(Values()) == multiset(old(Values())) + multiset{value}
      ensures old(Indexed(nodes)) ==> Indexed(nodes)
    {
      hide WeakOrder, IsHeap, HeapButUp, Rearranged;
      ghost var was := Values();
      nodes := nodes + [Node(value, |nodes|)];
      assert Values() == was + [value];
      Appended(less, was, value);
      HeapifyUp(|nodes| - 1);
      WholeMultiset(was + [value], Values());
    }

    /** Removes the element at `i`: lifts it to the root without comparing, then takes it off the end. */
    method Pop(i0: nat) returns (value: T)
      requires Valid() && i0 < |nodes|
      modifies this`nodes
      ensures Valid() && value == old(Values())[i0]
      ensures multiset(old(Values())) == multiset(Values()) + multiset{value}
      ensures old(Indexed(nodes)) ==> Indexed(nodes)
    {
      hide WeakOrder, IsHeap, HeapButBoth, HeapButDown, HeapFrom, Rearranged, ValuesOf;
      ghost var was := Values();
      Lift(i0);
      ghost var lifted := Values();
      RootReplaced(less, lifted);
      LastTaken(lifted);
      SwapIndices(0, |nodes| - 1);
      ghost var swapped := Values();
      value := nodes[|nodes| - 1].value;
      ValueAt(nodes, |nodes| - 1);
      ValuesPrefix(nodes, |nodes| - 1);
      nodes := nodes[..|nodes| - 1];
      ghost var taken := Values();
      HeapifyDown(0, 0);
      WholeIsHeap(less, Values());
      WholeMultiset(was, lifted);
      WholeMultiset(taken, Values());
    }

    /** The element at `i` goes to the root, and the elements above it one step down. */
    method Lift(i0: nat)
      requires Valid() && i0 < |nodes|
      modifies this`nodes
      ensures HeapButBoth(less, Values(), 0) && |nodes| == |old(nodes)| && Values()[0] == old(Values())[i0]
      ensures Rearranged(old(Values()), Values(), 0, |old(nodes)|)
      ensures old(Indexed(nodes)) ==> Indexed(nodes)
    {
      hide WeakOrder, IsHeap, HeapButBoth, Rearranged, Swapped, ValuesOf;
      ghost var was := Values();
      RearrangedNothing(was, 0, |was|);
      LiftStarts(less, was, i0);
      var i: nat := i0;
      while i != 0
        invariant i < |nodes| == |was| && HeapButBoth(less, Values(), i) && Rearranged(was, Values(), 0, |was|)
        invariant Values()[i] == was[i0]
        invariant old(Indexed(nodes)) ==> Indexed(nodes)
      {
        var parent := (i - 1) / 2;
        LiftStep(less, Values(), i);
        RearrangedSwap(Values(), 0, |was|, i, parent);
        RearrangedTwice(was, Values(), Swapped(Values(), i, parent), 0, |was|);
        SwappedAt(Values(), i, parent);
        SwapIndices(i, parent);
        i := parent;
      }
    }

    method PopMin() returns (value: T)
      requires Valid() && nodes != []
      modifies this`nodes
      ensures Valid() && forall x :: x in multiset(old(Values())) ==> !less(x, value)
      ensures multiset(old(Values())) == multiset(Values()) + multiset{value}
      ensures old(Indexed(nodes)) ==> Indexed(nodes)
    {
      hide WeakOrder, IsHeap, ValuesOf;
      ghost var was := Values();
      forall k | 0 <= k < |was|
        ensures !less(was[k], was[0])
      {
        RootIsLeast(less, was, k);
      }
      value := Pop(0);
    }

    /** Taking the least element until none is left sorts. */
    method PopAll() returns (out: seq<T>)
      requires Valid()
      modifies this`nodes
      ensures nodes == [] && Sorted(less, out, 0, |out|) && multiset(out) == multiset(old(Values()))
    {
      hide WeakOrder, IsHeap, ValuesOf, Sorted, NoneBelow;
      out := [];
      NothingOut(less, multiset(Values()));
      while nodes != []
        invariant Valid() && multiset(out) + multiset(Values()) == multiset(old(Values()))
        invariant Sorted(less, out, 0, |out|)
        invariant NoneBelow(less, out, multiset(Values()))
        decreases |multiset(Values())|
      {
        ghost var was := multiset(Values());
        var least := PopMin();
        LeastAppended(less, out, was, multiset(Values()), least);
        out := out + [least];
      }
      NoValues(nodes);
    }
  }

  /** Nothing that is left lies below anything that is out. */
  ghost predicate NoneBelow<T(!new)>(less: Order<T>, out: seq<T>, left: multiset<T>) {
    forall i, x :: 0 <= i < |out| && x in left ==> !less(x, out[i])
  }

  lemma {:induction false} NothingOut<T(!new)>(less: Order<T>, left: multiset<T>)
    ensures Sorted(less, [], 0, 0) && NoneBelow(less, [], left)
  {
  }

  lemma {:induction false} LeastAppended<T(!new)>(less: Order<T>, out: seq<T>, left: multiset<T>, left': multiset<T>, least: T)
    requires Sorted(less, out, 0, |out|) && NoneBelow(less, out, left) && left == left' + multiset{least}
    requires forall x :: x in left ==> !less(x, least)
    ensures Sorted(less, out + [least], 0, |out + [least]|) && NoneBelow(less, out + [least], left')
  {
    assert least in left;
    var out' := out + [least];
    forall i, x | 0 <= i < |out'| && x in left'
      ensures !less(x, out'[i])
    {
      assert x in left;
    }
  }

  lemma {:induction false} NoValues<T>(nodes: seq<Node<T>>)
    requires nodes == []
    ensures ValuesOf(nodes) == []
  {
  }

  lemma {:induction false} NotBoth<T(!new)>(less: Order<T>, x: T, y: T)
    requires WeakOrder(less) && less(x, y)
    ensures !less(y, x)
  {
  }

  lemma {:induction false} WholeMultiset<T>(s: seq<T>, s': seq<T>)
    requires Rearranged(s, s', 0, |s|)
    ensures |s| == |s'| && multiset(s') == multiset(s)
  {
    assert s[0..|s|] == s && s'[0..|s|] == s';
  }

  lemma {:induction false} WholeIsHeap<T>(less: Order<T>, s: seq<T>)
    requires HeapFrom(less, s, 0)
    ensures IsHeap(less, s)
  {
  }

  lemma {:induction false} LeavesAreHeaps<T>(less: Order<T>, s: seq<T>, i: int)
    requires i == |s| / 2
    ensures HeapFrom(less, s, i)
  {
  }

  lemma {:induction false} SubheapStarts<T>(less: Order<T>, s: seq<T>, i: int)
    requires HeapFrom(less, s, i + 1) && 0 <= i
    ensures HeapButDown(less, s, i, i)
  {
  }

  /** The swap to the end and the removal, on values. */
  lemma {:induction false} LastTaken<T>(s: seq<T>)
    requires s != []
    ensures var s' := Swapped(s, 0, |s| - 1);
            |s'| == |s| && s'[|s| - 1] == s[0] && multiset(s'[..|s| - 1]) + multiset{s[0]} == multiset(s)
  {
    var s' := Swapped(s, 0, |s| - 1);
    RearrangedSwap(s, 0, |s|, 0, |s| - 1);
    WholeMultiset(s, s');
    assert s' == s'[..|s| - 1] + [s'[|s| - 1]];
  }

  lemma {:induction false} ValueAt<T>(nodes: seq<Node<T>>, i: int)
    requires 0 <= i < |nodes|
    ensures ValuesOf(nodes)[i] == nodes[i].value
  {
  }

  lemma {:induction false} ValuesPrefix<T>(nodes: seq<Node<T>>, n: int)
    requires 0 <= n <= |nodes|
    ensures ValuesOf(nodes[..n]) == ValuesOf(nodes)[..n]
  {
  }

  /** A strict heap that is built at once has its places recorded afterwards only if it had before. */
  method BuiltAtOnce(nodes: seq<Node<int>>) returns (heap: IntrusiveBinaryHeap<int>)
    requires StrictHeap((x: int, y: int) => x < y, ValuesOf(nodes))
    ensures heap.Valid() && (Indexed(heap.nodes) <==> Indexed(nodes))
  {
    heap := new IntrusiveBinaryHeap.FromNodes((x: int, y: int) => x < y, nodes);
  }

  /** Two nodes in order whose places were never recorded. */
  method UnrecordedPlaces() returns (heap: IntrusiveBinaryHeap<int>)
    ensures heap.Valid() && !Indexed(heap.nodes)
  {
    var nodes := [Node(1, -1), Node(2, -1)];
    assert ValuesOf(nodes) == [1, 2];
    assert nodes[0].index != 0;
    heap := BuiltAtOnce(nodes);
  }
}
