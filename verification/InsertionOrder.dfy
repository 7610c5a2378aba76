/** The doubly linked list that the ordered hash table threads through its buckets.

    A bucket's address is its index; `NULL` is the null pointer. */
module InsertionOrder {

  datatype Link = Link(previous: int, next: int)

  const NULL := -1

  /** Entry `k` of the list, or null beyond its ends. */
  function At(order: seq<int>, k: int): int {
    if 0 <= k < |order| then order[k] else NULL
  }

  /** The bucket at place `k` points at its two neighbours. */
  ghost predicate Joined(s: seq<Link>, order: seq<int>, k: nat)
    requires k < |order| && 0 <= order[k] < |s|
  {
    s[order[k]] == Link(At(order, k - 1), At(order, k + 1))
  }

  /** Following `next` from `head` and `previous` from `tail` visits exactly the buckets of
      `order`, and all other buckets are unlinked. */
  ghost predicate Linked(s: seq<Link>, head: int, tail: int, order: seq<int>) {
    && (forall k :: 0 <= k < |order| ==> 0 <= order[k] < |s|)
    && (forall j, k :: 0 <= j < k < |order| ==> order[j] != order[k])
    && head == At(order, 0) && tail == At(order, |order| - 1)
    && (forall k :: 0 <= k < |order| ==> Joined(s, order, k))
    && (forall i :: 0 <= i < |s| && i !in order ==> s[i] == Link(NULL, NULL))
  }

  ghost predicate Pointer(s: seq<Link>, p: int) {
    NULL <= p < |s|
  }

  /** Neighbours point at each other, and nothing points at itself. */
  ghost predicate Mutual(s: seq<Link>) {
    forall i :: 0 <= i < |s| ==>
      && Pointer(s, s[i].next) && Pointer(s, s[i].previous) && s[i].next != i && s[i].previous != i
      && (s[i].next != NULL ==> s[s[i].next].previous == i)
      && (s[i].previous != NULL ==> s[s[i].previous].next == i)
  }

  lemma {:induction false} LinkedIsMutual(s: seq<Link>, head: int, tail: int, order: seq<int>)
    requires Linked(s, head, tail, order)
    ensures Mutual(s)
  {
    forall i | 0 <= i < |s|
      ensures Pointer(s, s[i].next) && Pointer(s, s[i].previous) && s[i].next != i && s[i].previous != i
      ensures s[i].next != NULL ==> s[s[i].next].previous == i
      ensures s[i].previous != NULL ==> s[s[i].previous].next == i
    {
      if i in order {
        var k :| 0 <= k < |order| && order[k] == i;
        assert Joined(s, order, k);
        assert k + 1 < |order| ==> Joined(s, order, k + 1);
        assert k > 0 ==> Joined(s, order, k - 1);
      }
    }
  }

  // ---------- moving entries between buckets ----------

  /** The address of a bucket after the contents of `x` and `y` changed places. */
  function Exchange(x: int, y: int, i: int): int {
    if i == x then y else if i == y then x else i
  }

  ghost function Renamed(order: seq<int>, x: int, y: int): seq<int> {
    seq(|order|, k requires 0 <= k < |order| => Exchange(x, y, order[k]))
  }

  ghost function Exchanged(s: seq<Link>, x: int, y: int): seq<Link>
    requires 0 <= x < |s| && 0 <= y < |s|
  {
    seq(|s|, i requires 0 <= i < |s| =>
      var l := s[Exchange(x, y, i)]; Link(Exchange(x, y, l.previous), Exchange(x, y, l.next)))
  }

  /** The links halfway: the pointers around `left` are redirected, those around `right` are not. */
  ghost function HalfRedirected(was: seq<Link>, left: int, right: int, i: int): Link
    requires 0 <= left < |was| && 0 <= right < |was| && 0 <= i < |was|
  {
    var (a, b) := (was[left], was[right]);
    if i == left then
      Link(Exchange(left, right, b.previous), Exchange(left, right, b.next))
    else if i == right then
      Link(if b.next == left then left else a.previous, if b.previous == left then left else a.next)
    else
      Link(if i == b.next then left else was[i].previous, if i == b.previous then left else was[i].next)
  }

  ghost function Redirected(was: seq<Link>, left: int, right: int, i: int): Link
    requires 0 <= left < |was| && 0 <= right < |was| && 0 <= i < |was|
  {
    var (r, l) := (HalfRedirected(was, left, right, right), HalfRedirected(was, left, right, i));
    Link(if i == r.next && i != left then right else l.previous,
         if i == r.previous && i != left then right else l.next)
  }

  lemma {:induction false} HalfIsMutual(was: seq<Link>, left: int, right: int)
    requires 0 <= left < |was| && 0 <= right < |was| && left != right && Mutual(was)
    ensures var r := HalfRedirected(was, left, right, right);
            && Pointer(was, r.previous) && Pointer(was, r.next) && r.previous != right && r.next != right
            && (r.previous == r.next ==> r.previous == NULL || r.previous == left || was[left].previous == was[left].next)
  {
  }

  lemma {:induction false} RedirectedIsExchanged(was: seq<Link>, left: int, right: int, i: int)
    requires 0 <= left < |was| && 0 <= right < |was| && left != right && Mutual(was) && 0 <= i < |was|
    ensures Redirected(was, left, right, i) == Exchanged(was, left, right)[i]
  {
  }

  /** The links after bucket `src` was moved to the unlinked `dst` and its neighbours told. */
  ghost function ShiftedLink(was: seq<Link>, dst: int, src: int, i: int): Link
    requires 0 <= src < |was| && 0 <= i < |was|
  {
    if i == dst then was[src]
    else if i == src then Link(NULL, NULL)
    else Link(if i == was[src].next then dst else was[i].previous, if i == was[src].previous then dst else was[i].next)
  }

  lemma {:induction false} ShiftedIsExchanged(was: seq<Link>, dst: int, src: int, i: int)
    requires 0 <= src < |was| && 0 <= dst < |was| && src != dst && 0 <= i < |was|
    requires Mutual(was) && was[dst] == Link(NULL, NULL)
    ensures ShiftedLink(was, dst, src, i) == Exchanged(was, src, dst)[i]
  {
  }

  lemma {:induction false} AllShifted(was: seq<Link>, dst: int, src: int, t: seq<Link>)
    requires 0 <= src < |was| && 0 <= dst < |was| && src != dst && |t| == |was|
    requires Mutual(was) && was[dst] == Link(NULL, NULL)
    requires forall i :: 0 <= i < |t| ==> t[i] == ShiftedLink(was, dst, src, i)
    ensures t == Exchanged(was, src, dst)
  {
    assert |Exchanged(was, src, dst)| == |was|;
    forall i | 0 <= i < |was| ensures t[i] == Exchanged(was, src, dst)[i] {
      ShiftedIsExchanged(was, dst, src, i);
    }
  }

  lemma {:induction false} NeighborsFacts(s: seq<Link>, i: int)
    requires Mutual(s) && 0 <= i < |s|
    ensures Pointer(s, s[i].next) && Pointer(s, s[i].previous) && s[i].next != i && s[i].previous != i
    ensures s[i].next != NULL ==> s[s[i].next].previous == i
    ensures s[i].previous != NULL ==> s[s[i].previous].next == i
  {
  }

  /** An unlinked bucket is nobody's neighbour. */
  lemma {:induction false} NeighborsOf(s: seq<Link>, dst: int, src: int)
    requires Mutual(s) && 0 <= src < |s| && 0 <= dst < |s| && s[dst] == Link(NULL, NULL)
    ensures Pointer(s, s[src].next) && Pointer(s, s[src].previous)
    ensures s[src].next != src && s[src].previous != src && s[src].next != dst && s[src].previous != dst
  {
  }

  lemma {:induction false} EmptyLinked(s: seq<Link>)
    requires forall i :: 0 <= i < |s| ==> s[i] == Link(NULL, NULL)
    ensures Linked(s, NULL, NULL, [])
  {
  }

  lemma {:induction false} RenamedMembers(order: seq<int>, x: int, y: int, i: int)
    ensures i in Renamed(order, x, y) <==> Exchange(x, y, i) in order
  {
    var o := Renamed(order, x, y);
    if Exchange(x, y, i) in order {
      var k :| 0 <= k < |order| && order[k] == Exchange(x, y, i);
      assert o[k] == i;
    }
    if i in o {
      var k :| 0 <= k < |o| && o[k] == i;
      assert order[k] == Exchange(x, y, i);
    }
  }

  lemma {:induction false} RenamedAt(order: seq<int>, x: int, y: int, k: int)
    requires x >= 0 && y >= 0
    ensures At(Renamed(order, x, y), k) == Exchange(x, y, At(order, k))
  {
  }

  lemma {:induction false} RenamedJoined(s: seq<Link>, head: int, tail: int, order: seq<int>, x: int, y: int, k: nat)
    requires Linked(s, head, tail, order) && 0 <= x < |s| && 0 <= y < |s| && k < |order|
    ensures var (t, o) := (Exchanged(s, x, y), Renamed(order, x, y));
            |o| == |order| && |t| == |s| && 0 <= o[k] < |t| && Joined(t, o, k)
  {
    assert Joined(s, order, k);
    RenamedAt(order, x, y, k - 1);
    RenamedAt(order, x, y, k + 1);
    assert Exchange(x, y, Renamed(order, x, y)[k]) == order[k];
  }

  lemma {:induction false} RenamedOther(s: seq<Link>, head: int, tail: int, order: seq<int>, x: int, y: int, i: int)
    requires Linked(s, head, tail, order) && 0 <= x < |s| && 0 <= y < |s| && 0 <= i < |s| && i !in Renamed(order, x, y)
    ensures Exchanged(s, x, y)[i] == Link(NULL, NULL)
  {
    RenamedMembers(order, x, y, i);
    assert s[Exchange(x, y, i)] == Link(NULL, NULL);
  }

  lemma {:induction false} RenamedDistinct(s: seq<Link>, head: int, tail: int, order: seq<int>, x: int, y: int, j: nat, k: nat)
    requires Linked(s, head, tail, order) && j < k < |order|
    ensures Renamed(order, x, y)[j] != Renamed(order, x, y)[k]
  {
    assert order[j] != order[k];
  }

  /** Exchanging two buckets and redirecting every pointer to them keeps the list, with the two
      addresses exchanged. */
  lemma {:induction false} RenameLinked(s: seq<Link>, head: int, tail: int, order: seq<int>, x: int, y: int)
    requires Linked(s, head, tail, order) && 0 <= x < |s| && 0 <= y < |s|
    ensures Linked(Exchanged(s, x, y), Exchange(x, y, head), Exchange(x, y, tail), Renamed(order, x, y))
  {
    hide Joined, Exchange, At;
    var t, o := Exchanged(s, x, y), Renamed(order, x, y);
    RenamedAt(order, x, y, 0);
    RenamedAt(order, x, y, |order| - 1);
    forall k: nat | k < |o| ensures 0 <= o[k] < |t| && Joined(t, o, k) {
      RenamedJoined(s, head, tail, order, x, y, k);
    }
    forall j: nat, k: nat | j < k < |o| ensures o[j] != o[k] {
      RenamedDistinct(s, head, tail, order, x, y, j, k);
    }
    forall i | 0 <= i < |s| && i !in o ensures t[i] == Link(NULL, NULL) {
      RenamedOther(s, head, tail, order, x, y, i);
    }
  }

  // ---------- adding and removing ----------

  lemma {:induction false} AppendLinked(s: seq<Link>, head: int, tail: int, order: seq<int>, x: int, t: seq<Link>)
    requires Linked(s, head, tail, order) && 0 <= x < |s| && x !in order && |t| == |s|
    requires forall i :: 0 <= i < |s| ==>
               t[i] == if i == x then Link(tail, NULL) else if i == tail then s[i].(next := x) else s[i]
    ensures Linked(t, if order == [] then x else head, x, order + [x])
  {
    var o := order + [x];
    forall k | 0 <= k < |o| ensures Joined(t, o, k) {
      if k < |order| {
        assert Joined(s, order, k);
        assert order[k] == tail <==> k == |order| - 1;
      }
    }
  }

  /** The list without its entry `k`. */
  ghost function Dropped(order: seq<int>, k: nat): seq<int>
    requires k < |order|
  {
    order[..k] + order[k + 1..]
  }

  lemma {:induction false} DroppedAt(order: seq<int>, k: nat, j: int)
    requires k < |order|
    ensures At(Dropped(order, k), j) == At(order, if j < k then j else j + 1)
  {
  }

  lemma {:induction false} DroppedMembers(s: seq<Link>, head: int, tail: int, order: seq<int>, k: nat)
    requires k < |order| && Linked(s, head, tail, order)
    ensures forall x :: x in Dropped(order, k) <==> x in order && x != order[k]
  {
    forall x | x in order && x != order[k] ensures x in Dropped(order, k) {
      var m :| 0 <= m < |order| && order[m] == x;
      assert Dropped(order, k)[if m < k then m else m - 1] == x;
    }
  }

  /** The links after the bucket at place `k` was bypassed. */
  ghost predicate Bypassed(s: seq<Link>, x: int, t: seq<Link>)
    requires 0 <= x < |s|
  {
    && |t| == |s|
    && forall i :: 0 <= i < |s| ==>
         t[i] == if i == x then Link(NULL, NULL)
                 else Link(if i == s[x].next then s[x].previous else s[i].previous,
                           if i == s[x].previous then s[x].next else s[i].next)
  }

  lemma {:induction false} JoinedAfterDrop(s: seq<Link>, head: int, tail: int, order: seq<int>, k: nat, t: seq<Link>, j: nat)
    requires Linked(s, head, tail, order) && k < |order| && Bypassed(s, order[k], t)
    requires j < |order| - 1
    ensures var o := Dropped(order, k); 0 <= o[j] < |t| && Joined(t, o, j)
  {
    var x, m := order[k], if j < k then j else j + 1;
    assert Joined(s, order, k) && Joined(s, order, m) && order[m] != x;
    DroppedAt(order, k, j);
    DroppedAt(order, k, j - 1);
    DroppedAt(order, k, j + 1);
  }

  lemma {:induction false} OthersAfterDrop(s: seq<Link>, head: int, tail: int, order: seq<int>, k: nat, t: seq<Link>, i: int)
    requires Linked(s, head, tail, order) && k < |order| && Bypassed(s, order[k], t)
    requires 0 <= i < |s| && i !in Dropped(order, k)
    ensures t[i] == Link(NULL, NULL)
  {
    if i != order[k] {
      assert Joined(s, order, k);
      assert i != At(order, k + 1) && i != At(order, k - 1);
    }
  }

  lemma {:induction false} UnlinkLinked(s: seq<Link>, head: int, tail: int, order: seq<int>, k: nat, t: seq<Link>)
    requires Linked(s, head, tail, order) && k < |order| && Bypassed(s, order[k], t)
    ensures var x := order[k];
            Linked(t, if s[x].previous == NULL then s[x].next else head,
                      if s[x].next == NULL then s[x].previous else tail, Dropped(order, k))
  {
    var x, o := order[k], Dropped(order, k);
    assert forall j :: 0 <= j < |o| ==> 0 <= o[j] < |t|;
    forall j | 0 <= j < |o| ensures Joined(t, o, j) {
      JoinedAfterDrop(s, head, tail, order, k, t, j);
    }
    forall i | 0 <= i < |s| && i !in o ensures t[i] == Link(NULL, NULL) {
      OthersAfterDrop(s, head, tail, order, k, t, i);
    }
    forall i, j | 0 <= i < j < |o| ensures o[i] != o[j] {
      DroppedAt(order, k, i);
      DroppedAt(order, k, j);
    }
    assert Joined(s, order, k);
    DroppedAt(order, k, 0);
    DroppedAt(order, k, |o| - 1);
  }

  // ---------- what the list holds ----------

  /** The contents of the buckets in list order. */
  ghost function Listed<T>(s: seq<T>, order: seq<int>): seq<T>
    requires forall k :: 0 <= k < |order| ==> 0 <= order[k] < |s|
  {
    seq(|order|, k requires 0 <= k < |order| => s[order[k]])
  }

  /** Exchanging contents and addresses together changes nothing that a reader sees. */
  lemma {:induction false} ListedRenamed<T>(s: seq<T>, t: seq<T>, order: seq<int>, x: int, y: int)
    requires |t| == |s| && 0 <= x < |s| && 0 <= y < |s|
    requires forall k :: 0 <= k < |order| ==> 0 <= order[k] < |s|
    requires forall i :: 0 <= i < |s| && i in order ==> t[Exchange(x, y, i)] == s[i]
    ensures forall k :: 0 <= k < |Renamed(order, x, y)| ==> 0 <= Renamed(order, x, y)[k] < |t|
    ensures Listed(t, Renamed(order, x, y)) == Listed(s, order)
  {
    forall k | 0 <= k < |order| ensures Listed(t, Renamed(order, x, y))[k] == Listed(s, order)[k] {
      assert order[k] in order;
    }
  }

  lemma {:induction false} ListedAppend<T>(s: seq<T>, t: seq<T>, order: seq<int>, x: int)
    requires |t| == |s| && 0 <= x < |s| && x !in order
    requires forall k :: 0 <= k < |order| ==> 0 <= order[k] < |s|
    requires forall i :: 0 <= i < |s| && i != x ==> t[i] == s[i]
    ensures Listed(t, order + [x]) == Listed(s, order) + [t[x]]
  {
    forall k | 0 <= k < |order| ensures t[order[k]] == s[order[k]] {
      assert order[k] in order;
    }
  }

  lemma {:induction false} AppendFacts(s: seq<Link>, head: int, tail: int, order: seq<int>)
    requires Linked(s, head, tail, order)
    ensures head == NULL <==> order == []
    ensures order == [] ==> tail == NULL
    ensures order != [] ==> 0 <= tail < |s| && tail in order && head in order
  {
    if order != [] {
      assert order[0] in order && order[|order| - 1] in order;
    }
  }

  /** Only the first bucket has no previous one, only the last no next one. */
  lemma {:induction false} EndsOfList(s: seq<Link>, head: int, tail: int, order: seq<int>, x: int)
    requires Linked(s, head, tail, order) && x in order
    ensures 0 <= x < |s|
    ensures s[x].previous == NULL <==> head == x
    ensures s[x].next == NULL <==> tail == x
  {
    var k :| 0 <= k < |order| && order[k] == x;
    assert Joined(s, order, k);
  }

  lemma {:induction false} ListedDropped<T>(s: seq<T>, order: seq<int>, k: nat)
    requires k < |order| && forall i :: 0 <= i < |order| ==> 0 <= order[i] < |s|
    ensures Listed(s, Dropped(order, k)) == Listed(s, order)[..k] + Listed(s, order)[k + 1..]
  {
  }

  lemma {:induction false} FollowBounds(s: seq<Link>, head: int, tail: int, order: seq<int>)
    requires Linked(s, head, tail, order)
    ensures forall k :: 0 <= k < |order| ==> 0 <= order[k] < |s|
    ensures head == At(order, 0) && tail == At(order, |order| - 1)
  {
  }

  lemma {:induction false} FollowNext(s: seq<Link>, head: int, tail: int, order: seq<int>, k: nat)
    requires Linked(s, head, tail, order) && k < |order|
    ensures 0 <= order[k] < |s| && s[order[k]].next == At(order, k + 1) && s[order[k]].previous == At(order, k - 1)
  {
    assert Joined(s, order, k);
  }

  lemma {:induction false} NotListed(s: seq<Link>, head: int, tail: int, order: seq<int>, x: int)
    requires Linked(s, head, tail, order) && 0 <= x < |s| && x !in order
    ensures s[x] == Link(NULL, NULL)
  {
  }
}
