/** `AK/QuickSort.h` and `AK/InsertionSort.h`: sorting in place under any strict weak order. */
module QuickSort {
  import opened Bits

  type Order<!T> = (T, T) -> bool

  /** What `less_than` must be: irreflexive, transitive, and incomparability carries over. */
  ghost predicate WeakOrder<T(!new)>(less: Order<T>) {
    && (forall x :: !less(x, x))
    && (forall x, y, z :: less(x, y) && less(y, z) ==> less(x, z))
    && (forall x, y, z :: less(x, z) ==> less(x, y) || less(y, z))
  }

  // ---------- ranges of a sequence ----------

  ghost predicate Sorted<T>(less: Order<T>, s: seq<T>, lo: int, hi: int) {
    forall i, j :: 0 <= lo <= i < j < hi <= |s| ==> !less(s[j], s[i])
  }

  /** Only the range changed, and its elements were only rearranged. */
  ghost predicate Rearranged<T>(s: seq<T>, s': seq<T>, lo: int, hi: int) {
    && 0 <= lo <= hi <= |s| == |s'|
    && s'[..lo] == s[..lo] && s'[hi..] == s[hi..]
    && multiset(s'[lo..hi]) == multiset(s[lo..hi])
  }

  ghost function Swapped<T>(s: seq<T>, i: int, j: int): seq<T>
    requires 0 <= i < |s| && 0 <= j < |s|
  {
    s[i := s[j]][j := s[i]]
  }

  lemma {:induction false} RearrangedNothing<T>(s: seq<T>, lo: int, hi: int)
    requires 0 <= lo <= hi <= |s|
    ensures Rearranged(s, s, lo, hi)
  {
  }

  lemma {:induction false} RearrangedSwap<T>(s: seq<T>, lo: int, hi: int, i: int, j: int)
    requires 0 <= lo <= i < hi <= |s| && lo <= j < hi
    ensures Rearranged(s, Swapped(s, i, j), lo, hi)
  {
    var r := s[lo..hi];
    assert Swapped(s, i, j)[lo..hi] == r[i - lo := r[j - lo]][j - lo := r[i - lo]];
  }

  lemma {:induction false} RearrangedTwice<T>(s: seq<T>, s': seq<T>, s'': seq<T>, lo: int, hi: int)
    requires Rearranged(s, s', lo, hi) && Rearranged(s', s'', lo, hi)
    ensures Rearranged(s, s'', lo, hi)
  {
  }

  lemma {:induction false} RearrangedInside<T>(s: seq<T>, s': seq<T>, lo: int, hi: int, lo': int, hi': int)
    requires Rearranged(s, s', lo', hi') && 0 <= lo <= lo' && hi' <= hi <= |s|
    ensures Rearranged(s, s', lo, hi)
  {
    assert s[lo..hi] == s[..lo'][lo..] + s[lo'..hi'] + s[hi'..][..hi - hi'];
    assert s'[lo..hi] == s'[..lo'][lo..] + s'[lo'..hi'] + s'[hi'..][..hi - hi'];
    assert s[..lo] == s[..lo'][..lo] && s'[..lo] == s'[..lo'][..lo];
    assert s[hi..] == s[hi'..][hi - hi'..] && s'[hi..] == s'[hi'..][hi - hi'..];
  }

  /** Every element of the rearranged range comes from it; every other place keeps its own. */
  lemma {:induction false} ComesFrom<T>(s: seq<T>, s': seq<T>, lo: int, hi: int, i: int) returns (k: int)
    requires Rearranged(s, s', lo, hi) && 0 <= i < |s|
    ensures 0 <= k < |s| && s'[i] == s[k]
    ensures lo <= i < hi <==> lo <= k < hi
    ensures !(lo <= i < hi) ==> k == i
  {
    if i < lo {
      assert s'[..lo][i] == s[..lo][i];
      k := i;
    } else if i >= hi {
      assert s'[hi..][i - hi] == s[hi..][i - hi];
      k := i;
    } else {
      assert s'[lo..hi][i - lo] in multiset(s'[lo..hi]);
      assert s'[i] in s[lo..hi];
      var r :| 0 <= r < hi - lo && s[lo..hi][r] == s'[i];
      k := lo + r;
    }
  }

  /** Sorted, apart from pairs that lie in the range still to be sorted. */
  ghost predicate SortedAround<T>(less: Order<T>, s: seq<T>, lo: int, hi: int, start: int, end: int) {
    forall i, j :: 0 <= lo <= i < j < hi <= |s| && (i < start || j >= end) ==> !less(s[j], s[i])
  }

  lemma {:induction false} AroundKept<T>(less: Order<T>, s: seq<T>, s': seq<T>, lo: int, hi: int, start: int, end: int)
    requires SortedAround(less, s, lo, hi, start, end) && Rearranged(s, s', start, end) && lo <= start && end <= hi
    ensures SortedAround(less, s', lo, hi, start, end)
  {
    forall i, j | 0 <= lo <= i < j < hi <= |s'| && (i < start || j >= end)
      ensures !less(s'[j], s'[i])
    {
      var k := ComesFrom(s, s', start, end, i);
      var l := ComesFrom(s, s', start, end, j);
    }
  }

  lemma {:induction false} SortedKept<T>(less: Order<T>, s: seq<T>, s': seq<T>, lo: int, hi: int, start: int, end: int)
    requires Sorted(less, s, lo, hi) && Rearranged(s, s', start, end) && (hi <= start || end <= lo)
    ensures Sorted(less, s', lo, hi)
  {
    forall i, j | 0 <= lo <= i < j < hi <= |s'|
      ensures !less(s'[j], s'[i])
    {
      var k := ComesFrom(s, s', start, end, i);
      var l := ComesFrom(s, s', start, end, j);
    }
  }

  // ---------- the partition ----------

  /** The three parts between the pivots at `start` and `end`; places from `k` to `g` are not looked at yet. */
  ghost predicate Parts<T>(less: Order<T>, s: seq<T>, start: int, end: int, j: int, k: int, g: int) {
    && 0 <= start < j <= k <= g + 2 && j <= g + 1 <= end < |s|
    && (forall i :: start < i < j ==> less(s[i], s[start]))
    && (forall i :: j <= i < k && i <= g ==> !less(s[i], s[start]) && less(s[i], s[end]))
    && (forall i :: g < i < end ==> !less(s[i], s[end]))
  }

  /** A small element joins the left part. */
  lemma {:induction false} TakeLeft<T>(less: Order<T>, s: seq<T>, start: int, end: int, j: int, k: int, g: int)
    requires Parts(less, s, start, end, j, k, g) && k <= g && less(s[k], s[start])
    ensures Parts(less, Swapped(s, k, j), start, end, j + 1, k + 1, g)
  {
  }

  /** A large element at the end of the unseen places joins the right part. */
  lemma {:induction false} TakeRight<T>(less: Order<T>, s: seq<T>, start: int, end: int, j: int, k: int, g: int)
    requires Parts(less, s, start, end, j, k, g) && k < g && !less(s[g], s[end])
    ensures Parts(less, s, start, end, j, k, g - 1)
  {
  }

  /** A large element trades places with the last unseen one. */
  lemma {:induction false} TradeRight<T>(less: Order<T>, s: seq<T>, start: int, end: int, j: int, k: int, g: int)
    requires Parts(less, s, start, end, j, k, g) && k <= g && !less(s[k], s[end])
    ensures Parts(less, Swapped(s, k, g), start, end, j, k, g - 1)
  {
  }

  lemma {:induction false} TakeMiddle<T>(less: Order<T>, s: seq<T>, start: int, end: int, j: int, k: int, g: int)
    requires Parts(less, s, start, end, j, k, g) && k <= g && !less(s[k], s[start]) && less(s[k], s[end])
    ensures Parts(less, s, start, end, j, k + 1, g)
  {
  }

  /** Around its two pivots the range is divided into three. */
  ghost predicate Divided<T>(less: Order<T>, s: seq<T>, start: int, end: int, j: int, g: int) {
    && 0 <= start <= j < g <= end < |s| && !less(s[g], s[j])
    && (forall i :: start <= i < j ==> less(s[i], s[j]))
    && (forall i :: j < i < g ==> !less(s[i], s[j]) && less(s[i], s[g]))
    && (forall i :: g < i <= end ==> !less(s[i], s[g]))
  }

  lemma {:induction false} PivotsPlaced<T>(less: Order<T>, s: seq<T>, start: int, end: int, j: int, k: int, g: int)
    requires Parts(less, s, start, end, j, k, g) && k > g && !less(s[end], s[start])
    ensures Divided(less, Swapped(Swapped(s, start, j - 1), end, g + 1), start, end, j - 1, g + 1)
  {
  }

  method Swap<T>(a: array<T>, i: int, j: int)
    requires 0 <= i < a.Length && 0 <= j < a.Length
    modifies a
    ensures a[..] == Swapped(old(a[..]), i, j)
  {
    var x := a[i];
    a[i] := a[j];
    a[j] := x;
  }

  /** A swap inside the range rearranges it. */
  method SwapInside<T>(a: array<T>, i: int, j: int, ghost lo: int, ghost hi: int, ghost was: seq<T>)
    requires 0 <= lo <= i < hi <= a.Length && lo <= j < hi && Rearranged(was, a[..], lo, hi)
    modifies a
    ensures a[..] == Swapped(old(a[..]), i, j) && Rearranged(was, a[..], lo, hi)
  {
    hide Rearranged, Swapped;
    ghost var now := a[..];
    RearrangedSwap(now, lo, hi, i, j);
    RearrangedTwice(was, now, Swapped(now, i, j), lo, hi);
    Swap(a, i, j);
  }

  lemma {:induction false} SkipSeen<T>(less: Order<T>, s: seq<T>, start: int, end: int, j: int, k: int, g: int)
    requires Parts(less, s, start, end, j, k, g) && k == g + 1
    ensures Parts(less, s, start, end, j, k + 1, g)
  {
  }

  /** Below the smaller pivot is below the larger. */
  lemma {:induction false} BelowBoth<T(!new)>(less: Order<T>, x: T, left: T, right: T)
    requires WeakOrder(less) && !less(right, left) && !less(x, right)
    ensures !less(x, left)
  {
  }

  /** The places that hold the pivots and bound the parts. */
  lemma {:induction false} PartsBounds<T>(less: Order<T>, s: seq<T>, start: int, end: int, j: int, k: int, g: int)
    requires Parts(less, s, start, end, j, k, g)
    ensures 0 <= start < j <= k <= g + 2 && j <= g + 1 <= end < |s|
  {
  }

  /** The inner loop of the partition. */
  method ScanDown<T>(a: array<T>, less: Order<T>, start: int, end: int, j: int, k: int, g0: int) returns (g: int)
    requires Parts(less, a[..], start, end, j, k, g0) && k <= g0
    ensures k <= g <= g0 && Parts(less, a[..], start, end, j, k, g)
    ensures k == g || less(a[g], a[end])
  {
    hide Parts;
    PartsBounds(less, a[..], start, end, j, k, g0);
    g := g0;
    while !less(a[g], a[end]) && k < g
      invariant k <= g <= g0 && Parts(less, a[..], start, end, j, k, g)
    {
      TakeRight(less, a[..], start, end, j, k, g);
      g := g - 1;
    }
  }

  lemma {:induction false} SwappedAt<T>(s: seq<T>, i: int, j: int)
    requires 0 <= i < |s| && 0 <= j < |s|
    ensures |Swapped(s, i, j)| == |s| && Swapped(s, i, j)[i] == s[j] && Swapped(s, i, j)[j] == s[i]
    ensures forall k :: 0 <= k < |s| && k != i && k != j ==> Swapped(s, i, j)[k] == s[k]
  {
  }

  /** Trades a large element for the last unseen one that is not large, if there is one. */
  method TradeLast<T>(a: array<T>, less: Order<T>, start: int, end: int, j: int, k: int, g0: int, ghost was: seq<T>) returns (g: int)
    requires Parts(less, a[..], start, end, j, k, g0) && k <= g0 && !less(a[k], a[end])
    requires Rearranged(was, a[..], start, end + 1)
    modifies a
    ensures g < g0 && 0 <= start < k <= g + 1 <= end < a.Length && Parts(less, a[..], start, end, j, k, g)
    ensures a[start] == old(a[start]) && a[end] == old(a[end])
    ensures if k == g + 1 then !less(a[k], a[end]) else less(a[k], a[end])
    ensures Rearranged(was, a[..], start, end + 1)
  {
    hide Parts, Rearranged, Swapped;
    PartsBounds(less, a[..], start, end, j, k, g0);
    g := ScanDown(a, less, start, end, j, k, g0);
    PartsBounds(less, a[..], start, end, j, k, g);
    TradeRight(less, a[..], start, end, j, k, g);
    SwappedAt(a[..], k, g);
    SwapInside(a, k, g, start, end + 1, was);
    g := g - 1;
  }

  /** The left part takes the element at `k`. */
  method PlaceLeft<T>(a: array<T>, less: Order<T>, start: int, end: int, j: int, k: int, g: int, ghost was: seq<T>)
    requires Parts(less, a[..], start, end, j, k, g) && k <= g && less(a[k], a[start])
    requires Rearranged(was, a[..], start, end + 1)
    modifies a
    ensures 0 <= start < end < a.Length && a[start] == old(a[start]) && a[end] == old(a[end])
    ensures Parts(less, a[..], start, end, j + 1, k + 1, g)
    ensures Rearranged(was, a[..], start, end + 1)
  {
    hide Parts, Rearranged, Swapped;
    PartsBounds(less, a[..], start, end, j, k, g);
    TakeLeft(less, a[..], start, end, j, k, g);
    SwappedAt(a[..], k, j);
    SwapInside(a, k, j, start, end + 1, was);
  }

  /** The branch for an element not below the right pivot. */
  method MoveRight<T(!new)>(a: array<T>, less: Order<T>, start: int, end: int, j0: int, k: int, g0: int, ghost was: seq<T>)
    returns (j: int, g: int)
    requires WeakOrder(less) && Parts(less, a[..], start, end, j0, k, g0) && k <= g0
    requires !less(a[k], a[end]) && !less(a[end], a[start]) && Rearranged(was, a[..], start, end + 1)
    modifies a
    ensures a[start] == old(a[start]) && a[end] == old(a[end])
    ensures Parts(less, a[..], start, end, j, k + 1, g) && g < g0
    ensures Rearranged(was, a[..], start, end + 1)
  {
    hide Parts, Rearranged, WeakOrder;
    PartsBounds(less, a[..], start, end, j0, k, g0);
    j := j0;
    g := TradeLast(a, less, start, end, j, k, g0, was);
    if k == g + 1 {
      BelowBoth(less, a[k], a[start], a[end]);
      SkipSeen(less, a[..], start, end, j, k, g);
    } else if !less(a[k], a[start]) {
      TakeMiddle(less, a[..], start, end, j, k, g);
    }
    if less(a[k], a[start]) {
      PlaceLeft(a, less, start, end, j, k, g, was);
      j := j + 1;
    }
  }

  /** The partitioning loop, from chosen pivots at both ends to pivots in place. */
  method Partition<T(!new)>(a: array<T>, less: Order<T>, start: int, end: int) returns (j: int, g: int)
    requires WeakOrder(less) && 0 <= start < end < a.Length && !less(a[end], a[start])
    modifies a
    ensures Divided(less, a[..], start, end, j, g)
    ensures Rearranged(old(a[..]), a[..], start, end + 1)
  {
    hide Parts, Rearranged, WeakOrder, Divided;
    ghost var was := a[..];
    RearrangedNothing(was, start, end + 1);
    FirstParts(less, was, start, end);
    j := start + 1;
    var k := start + 1;
    g := end - 1;
    while k <= g
      invariant Parts(less, a[..], start, end, j, k, g)
      invariant a[start] == was[start] && a[end] == was[end] && Rearranged(was, a[..], start, end + 1)
      decreases g - k + 1
    {
      PartsBounds(less, a[..], start, end, j, k, g);
      if less(a[k], a[start]) {
        PlaceLeft(a, less, start, end, j, k, g, was);
        j := j + 1;
      } else if !less(a[k], a[end]) {
        j, g := MoveRight(a, less, start, end, j, k, g, was);
      } else {
        TakeMiddle(less, a[..], start, end, j, k, g);
      }
      k := k + 1;
    }
    PlacePivots(a, less, start, end, j, k, g, was);
    j := j - 1;
    g := g + 1;
  }

  lemma {:induction false} FirstParts<T>(less: Order<T>, s: seq<T>, start: int, end: int)
    requires 0 <= start < end < |s|
    ensures Parts(less, s, start, end, start + 1, start + 1, end - 1)
  {
  }

  method PlacePivots<T>(a: array<T>, less: Order<T>, start: int, end: int, j: int, k: int, g: int, ghost was: seq<T>)
    requires Parts(less, a[..], start, end, j, k, g) && k > g && !less(a[end], a[start]) && Rearranged(was, a[..], start, end + 1)
    modifies a
    ensures Divided(less, a[..], start, end, j - 1, g + 1) && Rearranged(was, a[..], start, end + 1)
  {
    hide Parts, Rearranged, Swapped, Divided;
    PartsBounds(less, a[..], start, end, j, k, g);
    ghost var s := a[..];
    SwappedAt(s, start, j - 1);
    ghost var placed := Swapped(Swapped(s, start, j - 1), end, g + 1);
    assert Divided(less, placed, start, end, j - 1, g + 1) by {
      PivotsPlaced(less, s, start, end, j, k, g);
    }
    SwapInside(a, start, j - 1, start, end + 1, was);
    SwapInside(a, end, g + 1, start, end + 1, was);
    assert a[..] == placed;
  }

  // ---------- insertion sort ----------

  /** Sorted but for the element on its way down. */
  ghost predicate SortedBut<T>(less: Order<T>, s: seq<T>, lo: int, hi: int, j: int) {
    forall x, y :: 0 <= lo <= x < y < hi <= |s| && y != j ==> !less(s[y], s[x])
  }

  lemma {:induction false} SinkStep<T(!new)>(less: Order<T>, s: seq<T>, lo: int, hi: int, j: int)
    requires WeakOrder(less) && SortedBut(less, s, lo, hi, j) && 0 <= lo < j < hi <= |s| && less(s[j], s[j - 1])
    ensures SortedBut(less, Swapped(s, j, j - 1), lo, hi, j - 1)
  {
  }

  lemma {:induction false} SinkEnds<T(!new)>(less: Order<T>, s: seq<T>, lo: int, hi: int, j: int)
    requires WeakOrder(less) && SortedBut(less, s, lo, hi, j) && 0 <= lo <= j < hi <= |s|
    requires j == lo || !less(s[j], s[j - 1])
    ensures Sorted(less, s, lo, hi)
  {
    forall x, y | 0 <= lo <= x < y < hi <= |s|
      ensures !less(s[y], s[x])
    {
      if y == j && x < j - 1 {
        assert !less(s[j - 1], s[x]);
      }
    }
  }

  lemma {:induction false} SinkStarts<T>(less: Order<T>, s: seq<T>, lo: int, i: int)
    requires Sorted(less, s, lo, i) && 0 <= lo <= i < |s|
    ensures SortedBut(less, s, lo, i + 1, i)
  {
  }

  /** The inner loop: the element at `i` sinks to its place among the sorted ones before it. */
  method Sink<T(!new)>(a: array<T>, less: Order<T>, start: int, i: int, ghost hi: int, ghost was: seq<T>)
    requires WeakOrder(less) && 0 <= start <= i < hi <= a.Length && Sorted(less, a[..], start, i)
    requires Rearranged(was, a[..], start, hi)
    modifies a
    ensures Sorted(less, a[..], start, i + 1) && Rearranged(was, a[..], start, hi)
  {
    hide WeakOrder, Rearranged, Sorted, Swapped, SortedBut;
    SinkStarts(less, a[..], start, i);
    var j := i;
    while j > start && less(a[j], a[j - 1])
      invariant start <= j <= i
      invariant SortedBut(less, a[..], start, i + 1, j)
      invariant Rearranged(was, a[..], start, hi)
    {
      SinkStep(less, a[..], start, i + 1, j);
      SwapInside(a, j, j - 1, start, hi, was);
      j := j - 1;
    }
    SinkEnds(less, a[..], start, i + 1, j);
  }

  /** Standard insertion sort, with `end` inclusive. */
  method InsertionSort<T(!new)>(a: array<T>, less: Order<T>, start: int, end: int)
    requires WeakOrder(less) && 0 <= start <= end + 1 <= a.Length
    modifies a
    ensures Sorted(less, a[..], start, end + 1)
    ensures Rearranged(old(a[..]), a[..], start, end + 1)
  {
    hide WeakOrder, Rearranged, Sorted;
    ghost var was := a[..];
    RearrangedNothing(was, start, end + 1);
    ShortIsSorted(less, was, start);
    var i := start + 1;
    while i <= end
      invariant start < i && (i <= end + 1 || i == start + 1)
      invariant Sorted(less, a[..], start, if i <= end + 1 then i else end + 1)
      invariant Rearranged(was, a[..], start, end + 1)
    {
      Sink(a, less, start, i, end + 1, was);
      i := i + 1;
    }
  }

  lemma {:induction false} ShortIsSorted<T>(less: Order<T>, s: seq<T>, lo: int)
    ensures Sorted(less, s, lo, lo + 1) && Sorted(less, s, lo, lo)
  {
  }

  // ---------- dual-pivot quicksort ----------

  const INSERTION_SORT_CUTOFF := 7

  lemma {:induction false} Asymmetric<T(!new)>(less: Order<T>)
    requires WeakOrder(less)
    ensures forall x, y :: less(x, y) ==> !less(y, x)
  {
  }

  /** Picks two elements as pivots and leaves them at the two ends in order. */
  method ChoosePivots<T(!new)>(a: array<T>, less: Order<T>, start: int, end: int)
    requires WeakOrder(less) && 0 <= start < end < a.Length
    modifies a
    ensures !less(a[end], a[start])
    ensures Rearranged(old(a[..]), a[..], start, end + 1)
  {
    hide Rearranged, WeakOrder;
    ghost var was := a[..];
    RearrangedNothing(was, start, end + 1);
    Asymmetric(less);
    var size := end - start + 1;
    if size > 3 {
      var third := size / 3;
      if less(a[start + third], a[end - third]) {
        SwapInside(a, start + third, start, start, end + 1, was);
        SwapInside(a, end - third, end, start, end + 1, was);
      } else {
        SwapInside(a, start + third, end, start, end + 1, was);
        SwapInside(a, end - third, start, start, end + 1, was);
      }
    } else if !less(a[start], a[end]) {
      SwapInside(a, start, end, start, end + 1, was);
    }
  }

  /** Elements of different parts, and the pivots, are in order. */
  lemma {:induction false} DividedOrder<T(!new)>(less: Order<T>, s: seq<T>, start: int, end: int, j: int, g: int, i: int, k: int)
    requires WeakOrder(less) && Divided(less, s, start, end, j, g) && start <= i < k <= end
    requires !(k < j) && !(j < i && k < g) && !(g < i)
    ensures !less(s[k], s[i])
  {
    if i == j && k > g {
      BelowBoth(less, s[k], s[j], s[g]);
    } else if i < j && k > g {
      BelowBoth(less, s[k], s[j], s[g]);
    }
  }

  lemma {:induction false} DividedBounds<T>(less: Order<T>, s: seq<T>, start: int, end: int, j: int, g: int)
    requires Divided(less, s, start, end, j, g)
    ensures 0 <= start <= j < g <= end < |s|
  {
  }

  /** Sorting one part leaves the division. */
  lemma {:induction false} DividedKept<T>(less: Order<T>, s: seq<T>, s': seq<T>, start: int, end: int, j: int, g: int, lo: int, hi: int)
    requires Divided(less, s, start, end, j, g) && Rearranged(s, s', lo, hi)
    requires (lo == start && hi == j) || (lo == j + 1 && hi == g) || (lo == g + 1 && hi == end + 1)
    ensures Divided(less, s', start, end, j, g)
  {
    var _ := ComesFrom(s, s', lo, hi, j);
    var _ := ComesFrom(s, s', lo, hi, g);
    forall i | 0 <= i < |s'|
      ensures start <= i < j ==> less(s'[i], s'[j])
      ensures j < i < g ==> !less(s'[i], s'[j]) && less(s'[i], s'[g])
      ensures g < i <= end ==> !less(s'[i], s'[g])
    {
      var k := ComesFrom(s, s', lo, hi, i);
    }
  }

  /** With two parts sorted, only the third is left to sort. */
  lemma {:induction false} TwoPartsSorted<T(!new)>(less: Order<T>, s: seq<T>, start: int, end: int, j: int, g: int, lo: int, hi: int)
    requires WeakOrder(less) && Divided(less, s, start, end, j, g)
    requires (lo == start && hi == j) || (lo == j + 1 && hi == g) || (lo == g + 1 && hi == end + 1)
    requires (lo == start && hi == j) || Sorted(less, s, start, j)
    requires (lo == j + 1 && hi == g) || Sorted(less, s, j + 1, g)
    requires (lo == g + 1 && hi == end + 1) || Sorted(less, s, g + 1, end + 1)
    ensures SortedAround(less, s, start, end + 1, lo, hi)
  {
    hide Divided, WeakOrder;
    DividedBounds(less, s, start, end, j, g);
    var top := end + 1;
    forall i, k | 0 <= start <= i < k < top <= |s| && (i < lo || k >= hi)
      ensures !less(s[k], s[i])
    {
      if k < j || (j < i && k < g) || g < i {
      } else {
        DividedOrder(less, s, start, end, j, g, i, k);
      }
    }
  }

  /** The part still to be sorted, after sorting inside it. */
  lemma {:induction false} AroundComposed<T>(less: Order<T>, s: seq<T>, lo: int, hi: int, start: int, end: int, start': int, end': int)
    requires SortedAround(less, s, lo, hi, start, end) && SortedAround(less, s, start, end, start', end')
    requires 0 <= lo <= start <= start' && end' <= end <= hi <= |s|
    ensures SortedAround(less, s, lo, hi, start', end')
  {
  }

  lemma {:induction false} AroundAtFirst<T>(less: Order<T>, s: seq<T>, lo: int, hi: int)
    ensures SortedAround(less, s, lo, hi, lo, hi)
  {
  }

  lemma {:induction false} AroundAtLast<T>(less: Order<T>, s: seq<T>, lo: int, hi: int, start: int, end: int)
    requires SortedAround(less, s, lo, hi, start, end) && end <= start + 1
    ensures Sorted(less, s, lo, hi)
  {
  }

  /** Sorts one part of a divided range. */
  method SortPart<T(!new)>(a: array<T>, less: Order<T>, lo: int, hi: int, ghost start: int, ghost end: int, ghost j: int, ghost g: int, ghost was: seq<T>,
      ghost budget: nat)
    requires WeakOrder(less) && Divided(less, a[..], start, end, j, g) && Rearranged(was, a[..], start, end + 1)
    requires (lo == start && hi == j) || (lo == j + 1 && hi == g) || (lo == g + 1 && hi == end + 1)
    requires budget > 0 && Affords(budget - 1, hi - lo)
    modifies a
    ensures Divided(less, a[..], start, end, j, g) && Rearranged(was, a[..], start, end + 1)
    ensures Sorted(less, a[..], lo, hi) && Rearranged(old(a[..]), a[..], lo, hi)
    decreases budget, 0
  {
    hide Divided, Rearranged, Sorted, WeakOrder, Affords;
    DividedBounds(less, a[..], start, end, j, g);
    ghost var now := a[..];
    DualPivotQuickSort(a, less, lo, hi - 1, budget - 1);
    DividedKept(less, now, a[..], start, end, j, g, lo, hi);
    RearrangedInside(now, a[..], start, end + 1, lo, hi);
    RearrangedTwice(was, now, a[..], start, end + 1);
  }

  /** `budget` nested calls, the outermost included, are enough for `n` elements. */
  ghost predicate Affords(budget: nat, n: int) {
    budget >= 1 && n < Pow2(budget + 2)
  }

  /** A part that is not the largest holds less than half of the range. */
  lemma {:induction false} AffordsPart(budget: nat, part: int, n: int)
    requires Affords(budget, n) && 2 * part + 2 <= n && n > INSERTION_SORT_CUTOFF
    ensures budget > 1 && Affords(budget - 1, part)
  {
    assert Pow2(3) == 8;
  }

  /** Sorts two parts of a divided range; the third, from `lo` to `hi`, is left. */
  method SortTwoParts<T(!new)>(a: array<T>, less: Order<T>, lo1: int, hi1: int, lo2: int, hi2: int, ghost lo: int, ghost hi: int,
      ghost start: int, ghost end: int, ghost j: int, ghost g: int, ghost was: seq<T>,
      ghost budget: nat)
    requires WeakOrder(less) && Divided(less, a[..], start, end, j, g) && Rearranged(was, a[..], start, end + 1)
    requires (lo, hi) == (start, j) ==> (lo1, hi1, lo2, hi2) == (j + 1, g, g + 1, end + 1)
    requires (lo, hi) == (j + 1, g) ==> (lo1, hi1, lo2, hi2) == (start, j, g + 1, end + 1)
    requires (lo, hi) == (g + 1, end + 1) ==> (lo1, hi1, lo2, hi2) == (start, j, j + 1, g)
    requires (lo, hi) == (start, j) || (lo, hi) == (j + 1, g) || (lo, hi) == (g + 1, end + 1)
    requires budget > 0 && Affords(budget - 1, hi1 - lo1) && Affords(budget - 1, hi2 - lo2)
    modifies a
    ensures Rearranged(was, a[..], start, end + 1)
    ensures SortedAround(less, a[..], start, end + 1, lo, hi)
    decreases budget, 1
  {
    hide Divided, Rearranged, Sorted, WeakOrder, Affords, SortedAround;
    DividedBounds(less, a[..], start, end, j, g);
    SortPart(a, less, lo1, hi1, start, end, j, g, was, budget);
    ghost var now := a[..];
    SortPart(a, less, lo2, hi2, start, end, j, g, was, budget);
    SortedKept(less, now, a[..], lo1, hi1, lo2, hi2);
    TwoPartsSorted(less, a[..], start, end, j, g, lo, hi);
  }

  /** One round of the main loop: the largest part is left, the two others are sorted. */
  method SortRound<T(!new)>(a: array<T>, less: Order<T>, start: int, end: int, ghost n: int, ghost budget: nat)
    returns (start': int, end': int)
    requires WeakOrder(less) && 0 <= start < end < a.Length
    requires end + 1 - start <= n && n > INSERTION_SORT_CUTOFF && Affords(budget, n)
    modifies a
    ensures start <= start' <= end' + 1 && end' <= end && end' - start' < end - start
    ensures Rearranged(old(a[..]), a[..], start, end + 1)
    ensures SortedAround(less, a[..], start, end + 1, start', end' + 1)
    decreases budget, 2
  {
    hide Divided, Rearranged, WeakOrder, Affords, SortedAround;
    ghost var was := a[..];
    ChoosePivots(a, less, start, end);
    ghost var now := a[..];
    var left, right := Partition(a, less, start, end);
    RearrangedTwice(was, now, a[..], start, end + 1);
    DividedBounds(less, a[..], start, end, left, right);
    var leftSize, middleSize, rightSize := left - start, right - (left + 1), (end + 1) - (right + 1);
    if leftSize >= middleSize && leftSize >= rightSize {
      AffordsPart(budget, middleSize, n);
      AffordsPart(budget, rightSize, n);
      SortTwoParts(a, less, left + 1, right, right + 1, end + 1, start, left, start, end, left, right, was, budget);
      start', end' := start, left - 1;
    } else if middleSize >= rightSize {
      AffordsPart(budget, leftSize, n);
      AffordsPart(budget, rightSize, n);
      SortTwoParts(a, less, start, left, right + 1, end + 1, left + 1, right, start, end, left, right, was, budget);
      start', end' := left + 1, right - 1;
    } else {
      AffordsPart(budget, leftSize, n);
      AffordsPart(budget, middleSize, n);
      SortTwoParts(a, less, start, left, left + 1, right, right + 1, end + 1, start, end, left, right, was, budget);
      start', end' := right + 1, end;
    }
  }

  /** Sorts the range, with `end` inclusive. Every nested call gets a smaller budget, which therefore bounds how deep
      the calls nest. */
  method DualPivotQuickSort<T(!new)>(a: array<T>, less: Order<T>, start0: int, end0: int, ghost budget: nat)
    requires WeakOrder(less) && 0 <= start0 <= end0 + 1 <= a.Length && Affords(budget, end0 + 1 - start0)
    modifies a
    ensures Sorted(less, a[..], start0, end0 + 1)
    ensures Rearranged(old(a[..]), a[..], start0, end0 + 1)
    decreases budget, 3
  {
    hide Rearranged, Sorted, WeakOrder, SortedAround, Affords;
    if (end0 + 1) - start0 <= INSERTION_SORT_CUTOFF {
      InsertionSort(a, less, start0, end0);
      return;
    }
    ghost var was := a[..];
    RearrangedNothing(was, start0, end0 + 1);
    AroundAtFirst(less, was, start0, end0 + 1);
    var start, end := start0, end0;
    while start < end
      invariant start0 <= start <= end + 1 && end <= end0
      invariant Rearranged(was, a[..], start0, end0 + 1)
      invariant SortedAround(less, a[..], start0, end0 + 1, start, end + 1)
      decreases end - start
    {
      ghost var now, from, to := a[..], start, end;
      start, end := SortRound(a, less, start, end, end0 + 1 - start0, budget);
      AroundKept(less, now, a[..], start0, end0 + 1, from, to + 1);
      AroundComposed(less, a[..], start0, end0 + 1, from, to + 1, start, end + 1);
      RearrangedInside(now, a[..], start0, end0 + 1, from, to + 1);
      RearrangedTwice(was, now, a[..], start0, end0 + 1);
    }
    AroundAtLast(less, a[..], start0, end0 + 1, start, end + 1);
  }

  // ---------- single-pivot quicksort, with `end` exclusive ----------

  /** Places before `i` are below the pivot at `start`, places from `i` to `j` are not. */
  ghost predicate Halves<T>(less: Order<T>, s: seq<T>, start: int, i: int, j: int) {
    && 0 <= start < i <= j <= |s|
    && (forall k :: start < k < i ==> less(s[k], s[start]))
    && (forall k :: i <= k < j ==> !less(s[k], s[start]))
  }

  lemma {:induction false} HalvesTake<T>(less: Order<T>, s: seq<T>, start: int, i: int, j: int)
    requires Halves(less, s, start, i, j) && j < |s|
    ensures less(s[j], s[start]) ==> Halves(less, Swapped(s, j, i), start, i + 1, j + 1)
    ensures !less(s[j], s[start]) ==> Halves(less, s, start, i, j + 1)
  {
  }

  ghost predicate Split<T>(less: Order<T>, s: seq<T>, start: int, p: int, end: int) {
    && 0 <= start <= p < end <= |s|
    && (forall k :: start <= k < p ==> less(s[k], s[p]))
    && (forall k :: p < k < end ==> !less(s[k], s[p]))
  }

  lemma {:induction false} HalvesEnd<T>(less: Order<T>, s: seq<T>, start: int, i: int, end: int)
    requires Halves(less, s, start, i, end)
    ensures Split(less, Swapped(s, start, i - 1), start, i - 1, end)
  {
  }

  lemma {:induction false} SplitKept<T>(less: Order<T>, s: seq<T>, s': seq<T>, start: int, p: int, end: int, lo: int, hi: int)
    requires Split(less, s, start, p, end) && Rearranged(s, s', lo, hi)
    requires (lo == start && hi == p) || (lo == p + 1 && hi == end)
    ensures Split(less, s', start, p, end)
  {
    var _ := ComesFrom(s, s', lo, hi, p);
    forall i | 0 <= i < |s'|
      ensures start <= i < p ==> less(s'[i], s'[p])
      ensures p < i < end ==> !less(s'[i], s'[p])
    {
      var k := ComesFrom(s, s', lo, hi, i);
    }
  }

  /** With one half sorted, only the other is left to sort. */
  lemma {:induction false} OneHalfSorted<T(!new)>(less: Order<T>, s: seq<T>, start: int, p: int, end: int, lo: int, hi: int)
    requires WeakOrder(less) && Split(less, s, start, p, end)
    requires (lo == start && hi == p && Sorted(less, s, p + 1, end)) || (lo == p + 1 && hi == end && Sorted(less, s, start, p))
    ensures SortedAround(less, s, start, end, lo, hi)
  {
    forall i, k | 0 <= start <= i < k < end <= |s| && (i < lo || k >= hi)
      ensures !less(s[k], s[i])
    {
      if i < p && k > p {
        assert less(s[i], s[p]) && !less(s[k], s[p]);
      }
    }
  }

  method SplitRange<T>(a: array<T>, less: Order<T>, start: int, end: int) returns (i: int)
    requires 0 <= start && start + 1 < end <= a.Length
    modifies a
    ensures 1 <= i <= end - start && Split(less, a[..], start, start + i - 1, end)
    ensures Rearranged(old(a[..]), a[..], start, end)
  {
    hide Rearranged, Swapped, Halves, Split;
    ghost var was := a[..];
    RearrangedNothing(was, start, end);
    var size := end - start;
    SwapInside(a, start + size / 2, start, start, end, was);
    i := 1;
    HalvesAtFirst(less, a[..], start);
    for j := 1 to size
      invariant 1 <= i <= j && Halves(less, a[..], start, start + i, start + j) && Rearranged(was, a[..], start, end)
    {
      HalvesTake(less, a[..], start, start + i, start + j);
      if less(a[start + j], a[start]) {
        SwapInside(a, start + j, start + i, start, end, was);
        i := i + 1;
      }
    }
    HalvesEnd(less, a[..], start, start + i, end);
    SwapInside(a, start, start + i - 1, start, end, was);
  }

  lemma {:induction false} HalvesAtFirst<T>(less: Order<T>, s: seq<T>, start: int)
    requires 0 <= start < |s|
    ensures Halves(less, s, start, start + 1, start + 1)
  {
  }

  /** `budget` nested calls of the single-pivot sort are enough for `n` elements. */
  ghost predicate AffordsHalves(budget: nat, n: int) {
    budget >= 1 && n < Pow2(budget)
  }

  lemma {:induction false} AffordsShorter(budget: nat, part: int, n: int)
    requires AffordsHalves(budget, n) && 2 * part + 1 <= n && n >= 2
    ensures budget > 1 && AffordsHalves(budget - 1, part)
  {
    assert Pow2(1) == 2 * Pow2(0);
  }

  /** One round: splits the range, sorts the shorter half and leaves the longer. */
  method SplitRound<T(!new)>(a: array<T>, less: Order<T>, start: int, end: int, ghost budget: nat) returns (start': int, end': int)
    requires WeakOrder(less) && 0 <= start && start + 1 < end <= a.Length && AffordsHalves(budget, end - start)
    modifies a
    ensures start <= start' <= end' <= end && end' - start' < end - start
    ensures Rearranged(old(a[..]), a[..], start, end)
    ensures SortedAround(less, a[..], start, end, start', end')
    decreases budget, 0
  {
    hide Rearranged, WeakOrder, Split, Sorted, SortedAround, AffordsHalves;
    ghost var was := a[..];
    var i := SplitRange(a, less, start, end);
    ghost var now, p := a[..], start + i - 1;
    var lo, hi;
    if i > (end - start) / 2 {
      lo, hi, start', end' := start + i, end, start, start + i - 1;
    } else {
      lo, hi, start', end' := start, start + i - 1, start + i, end;
    }
    AffordsShorter(budget, hi - lo, end - start);
    SinglePivotQuickSort(a, less, lo, hi, budget - 1);
    SplitKept(less, now, a[..], start, p, end, lo, hi);
    RearrangedInside(now, a[..], start, end, lo, hi);
    RearrangedTwice(was, now, a[..], start, end);
    OneHalfSorted(less, a[..], start, p, end, start', end');
  }

  method SinglePivotQuickSort<T(!new)>(a: array<T>, less: Order<T>, start0: int, end0: int, ghost budget: nat)
    requires WeakOrder(less) && 0 <= start0 <= end0 <= a.Length && AffordsHalves(budget, end0 - start0)
    modifies a
    ensures Sorted(less, a[..], start0, end0)
    ensures Rearranged(old(a[..]), a[..], start0, end0)
    decreases budget, 1
  {
    hide Rearranged, Sorted, WeakOrder, SortedAround;
    ghost var was := a[..];
    RearrangedNothing(was, start0, end0);
    AroundAtFirst(less, was, start0, end0);
    var start, end := start0, end0;
    while end - start > 1
      invariant start0 <= start <= end <= end0
      invariant Rearranged(was, a[..], start0, end0)
      invariant SortedAround(less, a[..], start0, end0, start, end)
      decreases end - start
    {
      ghost var now, from, to := a[..], start, end;
      start, end := SplitRound(a, less, start, end, budget);
      AroundKept(less, now, a[..], start0, end0, from, to);
      AroundComposed(less, a[..], start0, end0, from, to, start, end);
      RearrangedInside(now, a[..], start0, end0, from, to);
      RearrangedTwice(was, now, a[..], start0, end0);
    }
    AroundAtLast(less, a[..], start0, end0, start, end);
  }

  // ---------- the overloads of `quick_sort` ----------

  /** The least number of nested calls that is enough when `r` of them are enough below 2^(r + spare) elements. */
  ghost function Nesting(n: nat, spare: nat): (r: nat)
    ensures r >= 1 && n < Pow2(r + spare) && (r > 1 ==> Pow2(r + spare - 1) <= n)
  {
    if n < Pow2(spare + 1) then 1 else Nesting(n / 2, spare) + 1
  }

  /** Sorts a collection; n > 7 elements nest at most log2(n) - 1 calls. */
  method Sort<T(!new)>(a: array<T>, less: Order<T>)
    requires WeakOrder(less)
    modifies a
    ensures Sorted(less, a[..], 0, a.Length) && multiset(a[..]) == multiset(old(a[..]))
  {
    DualPivotQuickSort(a, less, 0, a.Length - 1, Nesting(a.Length, 2));
    assert a[0..a.Length] == a[..] && old(a[..])[0..a.Length] == old(a[..]);
  }

  /** Sorts between two iterators; n > 0 elements nest at most log2(n) + 1 calls. */
  method SortBetween<T(!new)>(a: array<T>, less: Order<T>, start: int, end: int)
    requires WeakOrder(less) && 0 <= start <= end <= a.Length
    modifies a
    ensures Sorted(less, a[..], start, end) && Rearranged(old(a[..]), a[..], start, end)
  {
    SinglePivotQuickSort(a, less, start, end, Nesting(end - start, 0));
  }
}
