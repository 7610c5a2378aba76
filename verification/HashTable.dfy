/** `AK/HashTable.h`: the Robin Hood hash table, optionally with insertion order. */
module HashTables {
  import opened RobinHood
  import opened InsertionOrder
  import Bits

  datatype SetResult = InsertedNewEntry | ReplacedExistingEntry | KeptExistingEntry

  /** Two values are equal when their keys are, as in `HashMap`; a plain set has trivial values.

      The fields of a bucket are kept in two arrays, `cells` and `links`. Both have one element
      more than there are buckets: it is the `bucket_to_move` that an insertion carries along. */
  class HashTable<K(!new, ==), V(!new)> {
    const hash: K -> nat
    const slowEquality: bool
    const ordered: bool
    const blank: Cell<K, V>
    var cells: array<Cell<K, V>>
    var links: array<Link>
    var capacity: nat
    var size: nat
    var head: int
    var tail: int
    ghost var log: nat
    ghost var order: seq<int>

    ghost predicate Shaped()
      reads this
    {
      && cells.Length == links.Length == capacity + 1
      && (capacity > 0 ==> capacity == Bits.Pow2(log))
    }

    /** The buckets. */
    ghost function Table(): seq<Cell<K, V>>
      reads this, cells
      requires Shaped()
    {
      cells[..capacity]
    }

    ghost function Contents(): set<Entry<K, V>>
      reads this, cells
      requires Shaped()
    {
      Entries(Table())
    }

    ghost predicate ListOk()
      reads this, cells, links
      requires Shaped()
    {
      ordered ==>
        && Chained()
        && forall i :: i in order <==> 0 <= i < capacity && Used(cells[i])
    }

    /** The entries in the order of their first insertion. */
    ghost function Sequence(): seq<Entry<K, V>>
      reads this, cells
      requires forall k :: 0 <= k < |order| ==> 0 <= order[k] < cells.Length
    {
      Listed(EntrySeq(cells[..]), order)
    }

    ghost predicate Chained()
      reads this, links, cells
    {
      && cells.Length == links.Length
      && (ordered ==> Linked(links[..], head, tail, order) && forall k :: 0 <= k < |order| ==> 0 <= order[k] < cells.Length)
    }

    /** The load stays below 70 percent. */
    ghost predicate Valid()
      reads this, cells, links
    {
      && !Used(blank) && Shaped() && Probing(hash, Table()) && ListOk()
      && size == |Contents()|
      && (capacity == 0 ==> size == 0)
      && (capacity > 0 ==> size * 100 < capacity * 70)
    }

    constructor (hash: K -> nat, slowEquality: bool, ordered: bool, blank: Cell<K, V>)
      requires !Used(blank)
      ensures Valid() && fresh(cells) && fresh(links) && Contents() == {}
      ensures this.hash == hash && this.ordered == ordered && order == [] && capacity == 0
    {
      this.hash, this.slowEquality, this.ordered, this.blank := hash, slowEquality, ordered, blank;
      cells := new Cell<K, V>[1](_ => blank);
      links := new Link[1](_ => Link(NULL, NULL));
      capacity, size, head, tail, log, order := 0, 0, NULL, NULL, 0, [];
    }

    // ---------- positions ----------

    function Masked(x: nat): nat
      reads this
      requires capacity > 0
    {
      Bits.And(x, capacity - 1)
    }

    lemma {:induction false} MaskIsRemainder(x: nat)
      requires Shaped() && capacity > 0
      ensures Masked(x) == x % capacity
    {
      Bits.AndMask(x, log);
    }

    lemma {:induction false} MaskStepsForward(i: nat)
      requires Shaped() && i < capacity
      ensures Masked(i + 1) == Next(capacity, i)
    {
      MaskIsRemainder(i + 1);
      Bits.ModStep(i, capacity);
    }

    function UsedProbeLength(i: nat): nat
      reads this, cells
      requires i < capacity < cells.Length && Used(cells[i])
    {
      if cells[i].state == CALCULATE_LENGTH then
        var ideal := Masked(hash(cells[i].entry.key));
        if i < ideal then capacity + i - ideal else i - ideal
      else
        cells[i].state - 1
    }

    lemma {:induction false} ProbeLengthIsTrue(i: nat)
      requires Shaped() && i < capacity && Used(cells[i]) && Honest(hash, Table(), i)
      ensures UsedProbeLength(i) == Probe(hash, Table(), i)
    {
      MaskIsRemainder(hash(cells[i].entry.key));
    }

    predicate Matches(i: nat, h: nat, key: K)
      reads cells, this
      requires i < cells.Length
    {
      (slowEquality ==> cells[i].hash == h) && cells[i].entry.key == key
    }

    lemma {:induction false} MatchesKey(i: nat, h: nat, key: K)
      requires Shaped() && i < capacity && Used(cells[i]) && Honest(hash, Table(), i) && h == hash(key)
      ensures Matches(i, h, key) <==> cells[i].entry.key == key
    {
    }

    lemma {:induction false} SomeFree() returns (f: nat)
      requires Valid() && capacity > 0
      ensures f < capacity && !Used(cells[f])
    {
      FreeExists(Table());
      f :| 0 <= f < capacity && !Used(Table()[f]);
    }

    // ---------- lookup ----------

    method LookupWithHash(h: nat, key: K) returns (r: int)
      requires Valid() && h == hash(key)
      ensures r == NULL || (0 <= r < capacity && Used(cells[r]) && cells[r].entry.key == key)
      ensures r == NULL ==> forall e :: e in Contents() ==> e.key != key
    {
      if size == 0 {
        return NULL;
      }
      ghost var f := SomeFree();
      ghost var s := Table();
      ghost var home: nat := h % capacity;
      MaskIsRemainder(h);
      var i: nat := Masked(h);
      while true
        invariant i < capacity
        invariant Passed(s, key, home, i)
        decreases Dist(capacity, i, f)
      {
        assert cells[i] == s[i];
        if !Used(cells[i]) {
          AbsentWhenRicher(hash, s, key, i);
          return NULL;
        }
        assert Honest(hash, s, i);
        if Matches(i, h, key) {
          return i;
        }
        PassOne(s, key, home, i, f);
        MaskStepsForward(i);
        i := Masked(i + 1);
      }
    }

    // ---------- the insertion order ----------

    /** `update_collection_for_swapped_buckets`: redirects every pointer to two buckets whose
        contents, links included, were just exchanged. */
    method UpdateForSwapped(left: nat, right: nat, ghost was: seq<Link>)
      requires left < links.Length && right < links.Length && left != right
      requires |was| == links.Length && Mutual(was) && links[..] == was[left := was[right]][right := was[left]]
      modifies links, `head, `tail
      ensures links[..] == Exchanged(was, left, right)
      ensures head == Exchange(left, right, old(head)) && tail == Exchange(left, right, old(tail))
    {
      if head == left {
        head := right;
      } else if head == right {
        head := left;
      }
      if tail == left {
        tail := right;
      } else if tail == right {
        tail := left;
      }
      RedirectToLeft(left, right, was);
      RedirectToRight(left, right, was);
      forall i | 0 <= i < links.Length ensures links[i] == Exchanged(was, left, right)[i] {
        RedirectedIsExchanged(was, left, right, i);
      }
    }

    method RedirectToLeft(left: nat, right: nat, ghost was: seq<Link>)
      requires left < links.Length && right < links.Length && left != right
      requires |was| == links.Length && Mutual(was) && links[..] == was[left := was[right]][right := was[left]]
      modifies links
      ensures forall i :: 0 <= i < links.Length ==> links[i] == HalfRedirected(was, left, right, i)
    {
      hide Mutual;
      NeighborsFacts(was, right);
      assert links[left] == was[right] && links[right] == was[left];
      assert forall i :: 0 <= i < links.Length && i != left && i != right ==> links[i] == was[i];
      if links[left].previous != NULL {
        if links[left].previous == left {
          links[left] := links[left].(previous := right);
        }
        var p := links[left].previous;
        links[p] := links[p].(next := left);
      }
      if links[left].next != NULL {
        if links[left].next == left {
          links[left] := links[left].(next := right);
        }
        var n := links[left].next;
        links[n] := links[n].(previous := left);
      }
    }

    method RedirectToRight(left: nat, right: nat, ghost was: seq<Link>)
      requires left < links.Length && right < links.Length && left != right
      requires |was| == links.Length && Mutual(was)
      requires forall i :: 0 <= i < links.Length ==> links[i] == HalfRedirected(was, left, right, i)
      modifies links
      ensures forall i :: 0 <= i < links.Length ==> links[i] == Redirected(was, left, right, i)
    {
      ghost var half := links[..];
      assert links[right] == HalfRedirected(was, left, right, right);
      HalfIsMutual(was, left, right);
      if links[right].previous != NULL && links[right].previous != left {
        var p := links[right].previous;
        links[p] := links[p].(next := right);
      }
      if links[right].next != NULL && links[right].next != left {
        var n := links[right].next;
        links[n] := links[n].(previous := right);
      }
    }

    /** Moves the list membership of bucket `src` to the unlinked bucket `dst`. */
    method RelocateLinks(dst: nat, src: nat)
      requires dst < links.Length && src < links.Length && dst != src
      requires Linked(links[..], head, tail, order) && dst !in order
      modifies links, `head, `tail, `order
      ensures Linked(links[..], head, tail, order) && order == Renamed(old(order), src, dst)
    {
      hide Linked, Mutual;
      ghost var was := links[..];
      NotListed(was, head, tail, order, dst);
      LinkedIsMutual(was, head, tail, order);
      RenameLinked(was, head, tail, order, src, dst);
      links[dst] := links[src];
      links[src] := Link(NULL, NULL);
      UpdateForSwapped(src, dst, was);
      order := Renamed(order, src, dst);
    }

    /** Exchanges the list places of two buckets. */
    method SwapLinks(a: nat, b: nat)
      requires a < links.Length && b < links.Length && a != b && Linked(links[..], head, tail, order)
      modifies links, `head, `tail, `order
      ensures Linked(links[..], head, tail, order) && order == Renamed(old(order), a, b)
    {
      hide Linked, Mutual;
      ghost var was := links[..];
      LinkedIsMutual(was, head, tail, order);
      RenameLinked(was, head, tail, order, a, b);
      links[a], links[b] := links[b], links[a];
      UpdateForSwapped(a, b, was);
      order := Renamed(order, a, b);
    }

    /** `relocate_bucket`, followed by a new state and the repair of the list. */
    method RelocateBucket(dst: nat, src: nat, state: nat)
      requires Chained() && dst < cells.Length && src < cells.Length && dst != src
      requires ordered ==> dst !in order
      modifies cells, links, `head, `tail, `order
      ensures Chained() && cells[..] == old(cells[..][dst := cells[src].(state := state)])
      ensures ordered ==> order == Renamed(old(order), src, dst) && Sequence() == old(Sequence())
    {
      ghost var c0, o0 := EntrySeq(cells[..]), order;
      cells[dst] := cells[src].(state := state);
      if ordered {
        RelocateLinks(dst, src);
        ListedRenamed(c0, EntrySeq(cells[..]), o0, src, dst);
      }
    }

    /** `swap_buckets`, followed by a new state for `b` and the repair of the list. */
    method SwapBuckets(a: nat, b: nat, state: nat)
      requires Chained() && a < cells.Length && b < cells.Length && a != b
      modifies cells, links, `head, `tail, `order
      ensures Chained() && cells[..] == old(cells[..][a := cells[b]][b := cells[a].(state := state)])
      ensures ordered ==> order == Renamed(old(order), a, b) && Sequence() == old(Sequence())
    {
      ghost var c0, o0 := EntrySeq(cells[..]), order;
      cells[a], cells[b] := cells[b], cells[a].(state := state);
      if ordered {
        SwapLinks(a, b);
        ListedRenamed(c0, EntrySeq(cells[..]), o0, a, b);
      }
    }

    // ---------- insertion ----------

    /** While a bucket is carried, the list holds it and every used bucket but the stolen one. */
    ghost predicate CarryingOrder(q: nat)
      reads this, cells
      requires capacity <= cells.Length
    {
      ordered ==> forall i :: i in order <==> i == capacity || (0 <= i < capacity && i != q && Used(cells[i]))
    }

    /** Copies the bucket out and stamps it with the probe length of the new entry. */
    method TakeUp(q: nat, probeLength: nat, h: nat)
      requires Shaped() && Chained() && ListOk() && q < capacity && Used(cells[q])
      modifies cells, links, `head, `tail, `order
      ensures Chained() && CarryingOrder(q)
      ensures cells[..] == old(cells[..][capacity := cells[q]][q := Cell(StateFor(probeLength), h, cells[q].entry)])
      ensures ordered ==> Sequence() == old(Sequence())
    {
      ghost var o := order;
      RelocateBucket(capacity, q, cells[q].state);
      ghost var c := EntrySeq(cells[..]);
      cells[q] := Cell(StateFor(probeLength), h, cells[q].entry);
      assert EntrySeq(cells[..]) == c;
      if ordered {
        forall i ensures i in order <==> i == capacity || (0 <= i < capacity && i != q && Used(cells[i])) {
          RenamedMembers(o, q, capacity, i);
        }
      }
    }

    /** Puts the carried bucket into the free bucket `j`. */
    method PutDown(q: nat, j: nat, probe: nat)
      requires Shaped() && Chained() && CarryingOrder(q) && j < capacity && j != q && !Used(cells[j])
      modifies cells, links, `head, `tail, `order
      ensures Chained() && cells[..] == old(cells[..][j := cells[capacity].(state := StateFor(probe))])
      ensures ordered ==> forall i :: i in order <==> 0 <= i < capacity && i != q && Used(cells[i])
      ensures ordered ==> Sequence() == old(Sequence())
    {
      ghost var o := order;
      RelocateBucket(j, capacity, StateFor(probe));
      if ordered {
        forall i ensures i in order <==> 0 <= i < capacity && i != q && Used(cells[i]) {
          RenamedMembers(o, capacity, j, i);
        }
      }
    }

    /** Exchanges the carried bucket with the richer bucket `j`. */
    method PassOver(q: nat, j: nat, probe: nat)
      requires Shaped() && Chained() && CarryingOrder(q) && j < capacity && j != q && Used(cells[j])
      modifies cells, links, `head, `tail, `order
      ensures Chained() && CarryingOrder(q)
      ensures cells[..] == old(cells[..][capacity := cells[j]][j := cells[capacity].(state := StateFor(probe))])
      ensures ordered ==> Sequence() == old(Sequence())
    {
      ghost var o := order;
      SwapBuckets(capacity, j, StateFor(probe));
      if ordered {
        forall i ensures i in order <==> i == capacity || (0 <= i < capacity && i != q && Used(cells[i])) {
          RenamedMembers(o, capacity, j, i);
        }
      }
    }

    /** The state of the displacement loop. `n` is the new entry that will go into bucket `q`, `f` is
        some free bucket, `all` is everything the table will hold. */
    ghost predicate CarryState(q: nat, n: Cell<K, V>, i: nat, probe: nat, f: nat, all: set<Entry<K, V>>)
      reads this, cells, links
    {
      && Shaped() && Chained() && q < capacity && i < capacity && f < capacity && CarryingOrder(q)
      && var g := Table()[q := n];
      && Carried(hash, g, cells[capacity], i, probe) && !Used(g[f])
      && Entries(g) + {cells[capacity].entry} == all
      && Dist(capacity, q, i) + Dist(capacity, i, f) == Dist(capacity, q, f)
    }

    /** The carried bucket was put down: only bucket `q` is missing its entry. */
    ghost predicate CarryDone(q: nat, n: Cell<K, V>, all: set<Entry<K, V>>)
      reads this, cells, links
    {
      && Shaped() && Chained() && q < capacity
      && Probing(hash, Table()[q := n]) && Entries(Table()[q := n]) == all
      && (ordered ==> forall i :: i in order <==> 0 <= i < capacity && i != q && Used(cells[i]))
    }

    /** The next bucket is free and takes the carried one. */
    method CarryFinish(q: nat, i0: nat, probe0: nat, i: nat, ghost n: Cell<K, V>, ghost f: nat, ghost all: set<Entry<K, V>>)
      requires CarryState(q, n, i0, probe0, f, all) && i == Next(capacity, i0) && i != q && !Used(cells[i])
      modifies cells, links, `head, `tail, `order
      ensures CarryDone(q, n, all) && Chained() && (ordered ==> Sequence() == old(Sequence()))
    {
      hide Probing, Linked, Listed, Carried, Entries, Dist, Next;
      ghost var g, m := Table()[q := n], cells[capacity];
      assert cells[i] == g[i];
      CarryEnd(hash, g, m, i0, probe0);
      PutDown(q, i, probe0 + 1);
      assert Table()[q := n] == g[i := m.(state := StateFor(probe0 + 1))];
    }

    /** The next bucket is richer and changes places with the carried one. */
    method CarryExchange(q: nat, i0: nat, probe0: nat, i: nat, ghost n: Cell<K, V>, ghost f: nat, ghost all: set<Entry<K, V>>)
      requires CarryState(q, n, i0, probe0, f, all) && i == Next(capacity, i0) && i != q
      requires Used(cells[i]) && Probe(hash, Table(), i) < probe0 + 1 && StepsCloser(q, i0, i, f)
      modifies cells, links, `head, `tail, `order
      ensures CarryState(q, n, i, old(Probe(hash, Table(), i)), f, all)
      ensures Chained() && (ordered ==> Sequence() == old(Sequence()))
    {
      hide Probing, Linked, Listed, Carried, Entries, Dist, Next;
      ghost var g, m := Table()[q := n], cells[capacity];
      assert cells[i] == g[i];
      CarrySwap(hash, g, m, i0, probe0, f);
      PassOver(q, i, probe0 + 1);
      assert Table()[q := n] == g[i := m.(state := StateFor(probe0 + 1))];
    }

    /** From `i0` to `i` is one step closer to the free bucket. */
    ghost predicate StepsCloser(q: nat, i0: nat, i: nat, f: nat)
      reads this
    {
      && q < capacity && i0 < capacity && i < capacity && f < capacity
      && Dist(capacity, i, f) == Dist(capacity, i0, f) - 1 && Dist(capacity, q, i) == Dist(capacity, q, i0) + 1
    }

    lemma {:induction false} CloserToFree(q: nat, i0: nat, f: nat)
      requires q < capacity && i0 < capacity && f < capacity
      requires Dist(capacity, q, i0) + Dist(capacity, i0, f) == Dist(capacity, q, f)
      requires Dist(capacity, Next(capacity, i0), f) == Dist(capacity, i0, f) - 1
      ensures StepsCloser(q, i0, Next(capacity, i0), f) && Next(capacity, i0) != q
    {
    }

    method CarryStep(q: nat, i0: nat, probe0: nat, ghost n: Cell<K, V>, ghost f: nat, ghost all: set<Entry<K, V>>)
      returns (i: nat, probe: nat, done: bool)
      requires CarryState(q, n, i0, probe0, f, all)
      modifies cells, links, `head, `tail, `order
      ensures !done ==> CarryState(q, n, i, probe, f, all) && Dist(capacity, i, f) < Dist(capacity, i0, f)
      ensures done ==> CarryDone(q, n, all)
      ensures Chained() && (ordered ==> Sequence() == old(Sequence()))
    {
      hide Probing, Linked, Listed, Carried, Entries, Dist, Next, Masked, UsedProbeLength, CarryDone, Probe;
      ghost var g, m := Table()[q := n], cells[capacity];
      CarryOn(hash, g, m, i0, probe0, f);
      CloserToFree(q, i0, f);
      MaskStepsForward(i0);
      i, probe, done := Masked(i0 + 1), probe0 + 1, false;
      assert cells[i] == g[i];
      if !Used(cells[i]) {
        CarryFinish(q, i0, probe0, i, n, f, all);
        done := true;
        return;
      }
      SameBucket(g, Table(), i);
      ProbeLengthIsTrue(i);
      var target := UsedProbeLength(i);
      if probe > target {
        CarryExchange(q, i0, probe0, i, n, f, all);
        probe := target;
      }
    }

    lemma {:induction false} SameBucket(g: seq<Cell<K, V>>, t: seq<Cell<K, V>>, i: nat)
      requires |g| == |t| && i < |g| && g[i] == t[i]
      ensures Honest(hash, t, i) == Honest(hash, g, i) && Probe(hash, t, i) == Probe(hash, g, i)
    {
    }

    /** Finds a free bucket for the carried one, exchanging it with richer buckets along the way. */
    method CarryToFree(q: nat, probe0: nat, ghost n: Cell<K, V>, ghost f: nat, ghost all: set<Entry<K, V>>)
      requires CarryState(q, n, q, probe0, f, all)
      modifies cells, links, `head, `tail, `order
      ensures CarryDone(q, n, all) && (ordered ==> Sequence() == old(Sequence()))
    {
      var probe, i, done := probe0, q, false;
      while !done
        invariant !done ==> CarryState(q, n, i, probe, f, all)
        invariant done ==> CarryDone(q, n, all)
        invariant Chained() && (ordered ==> Sequence() == old(Sequence()))
        decreases !done, if done then 0 else Dist(capacity, i, f)
      {
        i, probe, done := CarryStep(q, i, probe, n, f, all);
      }
    }

    /** Steals bucket `q` for a new entry; the stolen bucket is handed back empty. */
    method Displace(q: nat, probeLength: nat, h: nat, ghost e: Entry<K, V>)
      requires Valid() && q < capacity && Used(cells[q]) && h == hash(e.key)
      requires probeLength == Dist(capacity, h % capacity, q) > Probe(hash, Table(), q)
      requires var p := Prev(capacity, q); Used(cells[p]) && Probe(hash, Table(), p) + 1 >= probeLength
      requires forall k :: 0 <= k < capacity && Used(cells[k]) ==> cells[k].entry.key != e.key
      modifies cells, links, `head, `tail, `order
      ensures Shaped() && ListOk() && !Used(cells[q])
      ensures Probing(hash, Table()[q := Cell(StateFor(probeLength), h, e)])
      ensures Entries(Table()[q := Cell(StateFor(probeLength), h, e)]) == old(Contents()) + {e}
      ensures ordered ==> Sequence() == old(Sequence())
    {
      hide Probing, Linked, Listed, Carried, Entries;
      ghost var f := SomeFree();
      ghost var n := Cell(StateFor(probeLength), h, e);
      ghost var s := Table();
      CarryStart(hash, s, q, n);
      ProbeLengthIsTrue(q);
      var probe := UsedProbeLength(q);
      TakeUp(q, probeLength, h);
      assert Table()[q := n] == s[q := n];
      CarryToFree(q, probe, n, f, old(Contents()) + {e});
      ghost var g, c := Table()[q := n], EntrySeq(cells[..]);
      cells[q] := cells[q].(state := FREE);
      assert Table()[q := n] == g && EntrySeq(cells[..]) == c;
    }

    /** Bucket `i` is reserved: empty, not in the list, and writing `e` there completes the table. */
    ghost predicate Reserved(i: nat, probeLength: nat, h: nat, e: Entry<K, V>, contents: set<Entry<K, V>>)
      reads this, cells, links
    {
      && Shaped() && ListOk() && Chained() && i < capacity && !Used(cells[i])
      && var g := Table()[i := Cell(StateFor(probeLength), h, e)];
      && Probing(hash, g) && Entries(g) == contents + {e} && e !in contents
      && forall x :: x in contents ==> x.key != e.key
    }

    lemma {:induction false} AbsentFromContents(key: K)
      requires Shaped() && forall k :: 0 <= k < capacity && Used(cells[k]) ==> cells[k].entry.key != key
      ensures forall x :: x in Contents() ==> x.key != key
    {
    }

    /** Finding a free bucket at the end of a probe. */
    lemma {:induction false} ReserveFree(i: nat, h: nat, e: Entry<K, V>)
      requires Valid() && i < capacity && !Used(cells[i]) && h == hash(e.key)
      requires Passed(Table(), e.key, h % capacity, i)
      requires var d := Dist(capacity, h % capacity, i);
               d > 0 ==> Used(Table()[Prev(capacity, i)]) && Probe(hash, Table(), Prev(capacity, i)) + 1 >= d
      ensures Reserved(i, Dist(capacity, h % capacity, i), h, e, Contents())
    {
      var s := Table();
      var n := Cell(StateFor(Dist(capacity, h % capacity, i)), h, e);
      AbsentWhenRicher(hash, s, e.key, i);
      Place(hash, s, i, n);
      EntriesUpdate(s, i, n);
      AbsentFromContents(e.key);
    }

    /** The probe of an insertion: it stops at a free bucket, at the same key, or at a richer bucket. */
    method ProbeForWriting(key: K, h: nat) returns (i: nat, probe: nat)
      requires Valid() && capacity > 0 && h == hash(key)
      ensures i < capacity && probe == Dist(capacity, h % capacity, i)
      ensures !Used(cells[i]) || cells[i].entry.key == key || Probe(hash, Table(), i) < probe
      ensures Passed(Table(), key, h % capacity, i)
      ensures probe > 0 ==> Used(Table()[Prev(capacity, i)]) && Probe(hash, Table(), Prev(capacity, i)) + 1 >= probe
    {
      hide Probing, Linked, Listed, Entries, Passed, Dist, Next, Prev, Probe, Masked, UsedProbeLength, Honest, Matches;
      ghost var f := SomeFree();
      ghost var s := Table();
      ghost var home: nat := h % capacity;
      MaskIsRemainder(h);
      PassedNothing(s, key, home);
      i, probe := Masked(h), 0;
      while true
        invariant i < capacity && probe == Dist(capacity, home, i) && Passed(s, key, home, i)
        invariant probe > 0 ==> Used(s[Prev(capacity, i)]) && Probe(hash, s, Prev(capacity, i)) + 1 >= probe
        decreases Dist(capacity, i, f)
      {
        assert cells[i] == s[i];
        if !Used(cells[i]) {
          return;
        }
        HonestAt(hash, s, i);
        MatchesKey(i, h, key);
        if Matches(i, h, key) {
          return;
        }
        ProbeLengthIsTrue(i);
        if probe > UsedProbeLength(i) {
          return;
        }
        PassOne(s, key, home, i, f);
        PrevOfNext(capacity, i);
        MaskStepsForward(i);
        i := Masked(i + 1);
        probe := probe + 1;
      }
    }

    method LookupForWriting(key: K, h: nat, replace: bool, ghost e: Entry<K, V>)
      returns (result: SetResult, i: nat, probe: nat)
      requires Valid() && capacity > 0 && h == hash(key) && e.key == key
      modifies cells, links, `head, `tail, `order
      ensures result == InsertedNewEntry ==> Reserved(i, probe, h, e, old(Contents()))
      ensures result != InsertedNewEntry ==>
                && result == (if replace then ReplacedExistingEntry else KeptExistingEntry)
                && Valid() && cells[..] == old(cells[..]) && order == old(order)
                && i < capacity && Used(cells[i]) && cells[i].entry.key == key
      ensures Chained() && (ordered ==> Sequence() == old(Sequence()))
    {
      hide Probing, Linked, Listed, Entries;
      i, probe := ProbeForWriting(key, h);
      if !Used(cells[i]) {
        ReserveFree(i, h, e);
        return InsertedNewEntry, i, probe;
      }
      HonestAt(hash, Table(), i);
      if Matches(i, h, key) {
        return if replace then ReplacedExistingEntry else KeptExistingEntry, i, 0;
      }
      AbsentWhenRicher(hash, Table(), key, i);
      AbsentFromContents(key);
      Displace(i, probe, h, e);
      return InsertedNewEntry, i, probe;
    }

    /** Appends a reserved bucket to the list. */
    method AppendLink(i: nat)
      requires Chained() && ordered && i < links.Length && i !in order
      modifies links, `head, `tail, `order
      ensures Chained() && order == old(order) + [i]
    {
      hide Linked;
      ghost var was := links[..];
      NotListed(was, head, tail, order, i);
      AppendFacts(was, head, tail, order);
      if head == NULL {
        head := i;
      } else {
        links[i] := links[i].(previous := tail);
        links[tail] := links[tail].(next := i);
      }
      AppendLinked(was, old(head), tail, order, i, links[..]);
      tail := i;
      order := order + [i];
    }

    /** Constructs the value in a reserved bucket and commits the bucket. */
    method CommitInsertedBucket(i: nat, h: nat, probe: nat, e: Entry<K, V>, ghost contents: set<Entry<K, V>>)
      requires Reserved(i, probe, h, e, contents) && !Used(blank)
      requires size == |contents| && (size + 1) * 100 < capacity * 70
      modifies cells, links, `head, `tail, `order, `size
      ensures Valid() && Contents() == contents + {e} && size == old(size) + 1
      ensures ordered ==> Sequence() == old(Sequence()) + [e]
    {
      hide Probing, Linked, Listed, Entries;
      ghost var o, c, g := order, EntrySeq(cells[..]), Table()[i := Cell(StateFor(probe), h, e)];
      cells[i] := Cell(StateFor(probe), h, e);
      assert Table() == g;
      size := size + 1;
      if ordered {
        AppendLink(i);
        ListedAppend(c, EntrySeq(cells[..]), o, i);
      }
    }

    /** Assigns a value over the equal one in bucket `i`. */
    method AssignSlot(i: nat, e: Entry<K, V>)
      requires Valid() && i < capacity && Used(cells[i]) && cells[i].entry.key == e.key
      modifies cells
      ensures Valid() && Contents() == Put(old(Contents()), e) && HasKey(old(Contents()), e.key)
      ensures ordered ==> Sequence() == Replaced(old(Sequence()), e)
    {
      hide Probing, Linked, Entries;
      ghost var s, c := Table(), cells[..];
      Overwrite(hash, s, i, e);
      cells[i] := cells[i].(entry := e);
      assert Table() == s[i := s[i].(entry := e)];
      if ordered {
        UniqueOf(hash, s);
        ReplacedListed(c, cells[..], order, i, e);
      }
    }

    method WriteValue(e: Entry<K, V>, replace: bool) returns (result: SetResult)
      requires Valid() && capacity > 0 && (size + 1) * 100 < capacity * 70
      modifies cells, links, `head, `tail, `order, `size
      ensures Valid()
      ensures result == Outcome(old(Contents()), e.key, replace)
      ensures Contents() == if result == KeptExistingEntry then old(Contents()) else Put(old(Contents()), e)
      ensures size == if result == InsertedNewEntry then old(size) + 1 else old(size)
      ensures ordered ==> Sequence() == SequenceAfter(old(Sequence()), e, result)
    {
      hide Probing, Linked, Listed, Entries;
      var h := hash(e.key);
      var i, probe;
      result, i, probe := LookupForWriting(e.key, h, replace, e);
      match result
      case ReplacedExistingEntry =>
        AssignSlot(i, e);
      case InsertedNewEntry =>
        CommitInsertedBucket(i, h, probe, e, old(Contents()));
        assert Put(old(Contents()), e) == old(Contents()) + {e};
      case KeptExistingEntry =>
        UniqueOf(hash, Table());
        OneWithKey(Table(), i);
    }

    // ---------- growing ----------

    predicate ShouldGrow()
      reads this
    {
      (size + 1) * 100 >= capacity * 70
    }

    /** Starts over with `Pow2(bits)` empty buckets. */
    method Allocate(bits: nat)
      requires !Used(blank)
      modifies this
      ensures fresh(cells) && fresh(links) && capacity == Bits.Pow2(bits)
      ensures Valid() && Contents() == {} && size == 0 && order == []
    {
      capacity, log, size := Bits.Pow2(bits), bits, 0;
      var b := blank;
      cells := new Cell<K, V>[capacity + 1](_ => b);
      links := new Link[capacity + 1](_ => Link(NULL, NULL));
      head, tail, order := NULL, NULL, [];
      hide Probing, Linked, Entries;
      assert forall i :: 0 <= i < |Table()| ==> Table()[i] == b;
      FreeProbing(hash, Table());
      EmptyLinked(links[..]);
    }

    /** Follows the old list from its head and writes every value into the new buckets. */
    method ReinsertListed(c: array<Cell<K, V>>, l: array<Link>, first: int, ghost last: int, ghost o: seq<int>)
      requires Valid() && ordered && order == [] && Contents() == {} && size == 0
      requires c != cells && l != links && c.Length == l.Length && Linked(l[..], first, last, o)
      requires DistinctKeys(Listed(EntrySeq(c[..]), o)) && |o| * 100 < capacity * 70
      modifies cells, links, `head, `tail, `order, `size
      ensures Valid() && size == |o| && Sequence() == Listed(EntrySeq(c[..]), o)
      ensures Contents() == AsSet(Listed(EntrySeq(c[..]), o))
    {
      hide Probing, Entries, Linked;
      FollowBounds(l[..], first, last, o);
      ghost var s := Listed(EntrySeq(c[..]), o);
      var it := first;
      ghost var k := 0;
      assert Sequence() == s[..0];
      while it != NULL
        invariant Valid() && k <= |o| && it == At(o, k) && size == k
        invariant Linked(l[..], first, last, o) && s == Listed(EntrySeq(c[..]), o)
        invariant Sequence() == s[..k] && Contents() == AsSet(s[..k])
        decreases |o| - k
      {
        NextIsNew(s, k);
        FollowNext(l[..], first, last, o, k);
        assert c[it].entry == s[k];
        var _ := WriteValue(c[it].entry, false);
        it := l[it].next;
        k := k + 1;
      }
      assert s[..k] == s;
    }

    /** Walks over the old buckets and writes every value into the new ones. */
    method ReinsertAll(c: array<Cell<K, V>>, n: nat)
      requires Valid() && Contents() == {} && size == 0 && c != cells && n <= c.Length
      requires Unique(c[..n]) && |Entries(c[..n])| * 100 < capacity * 70
      modifies cells, links, `head, `tail, `order, `size
      ensures Valid() && Contents() == Entries(c[..n])
    {
      hide Probing, Linked, Listed;
      for i := 0 to n
        invariant Valid() && Contents() == Entries(c[..i])
        invariant Unique(c[..n]) && |Entries(c[..n])| * 100 < capacity * 70
      {
        PrefixEntries(c[..n], i);
        assert c[..n][..i] == c[..i] && c[..n][..i + 1] == c[..i + 1];
        if Used(c[i]) {
          var _ := WriteValue(c[i].entry, false);
        }
      }
    }

    /** The listed entries are the contents, each once. */
    lemma {:induction false} ListedContents()
      requires Valid() && ordered
      ensures AsSet(Sequence()) == Contents() && DistinctKeys(Sequence()) && |order| == size
    {
      var s := Sequence();
      forall x | x in Contents() ensures x in s {
        var i :| 0 <= i < capacity && Used(Table()[i]) && Table()[i].entry == x;
        assert i in order;
        var k :| 0 <= k < |order| && order[k] == i;
        assert s[k] == x;
      }
      forall k | 0 <= k < |s| ensures s[k] in Contents() {
        assert order[k] in order && Table()[order[k]].entry == s[k];
      }
      forall j, k | 0 <= j < k < |s| ensures s[j].key != s[k].key {
        assert order[j] in order && order[k] in order;
        var t := Table();
        assert Used(t[order[j]]) && Used(t[order[k]]) && order[j] != order[k];
      }
      DistinctSize(s);
    }

    method TryRehash(wanted: nat)
      requires Valid()
      modifies this
      ensures Valid() && fresh(cells) && fresh(links)
      ensures capacity == Bits.Pow2(CeilLog2(if wanted > old(capacity) then wanted else old(capacity) + 1))
      ensures Contents() == old(Contents()) && size == old(size)
      ensures ordered ==> Sequence() == old(Sequence())
    {
      var n := if wanted > capacity then wanted else capacity + 1;
      var c, l, first, n0 := cells, links, head, capacity;
      ghost var last, o, contents, s0 := tail, order, Contents(), size;
      UniqueOf(hash, Table());
      if ordered {
        ListedContents();
      }
      assert s0 * 100 < n * 70;
      Allocate(CeilLog2(n));
      if ordered {
        ReinsertListed(c, l, first, last, o);
      } else {
        ReinsertAll(c, n0);
      }
    }

    /** `try_set`: the public way to write a value. */
    method Set(e: Entry<K, V>, replace: bool) returns (result: SetResult)
      requires Valid()
      modifies this, cells, links
      ensures Valid() && (cells == old(cells) || fresh(cells)) && (links == old(links) || fresh(links))
      ensures result == Outcome(old(Contents()), e.key, replace)
      ensures Contents() == if result == KeptExistingEntry then old(Contents()) else Put(old(Contents()), e)
      ensures size == if result == InsertedNewEntry then old(size) + 1 else old(size)
      ensures ordered ==> Sequence() == SequenceAfter(old(Sequence()), e, result)
      ensures (old(size) + 1) * 100 < old(capacity) * 70 ==>
                capacity == old(capacity) && cells == old(cells) && links == old(links)
      ensures (old(size) + 1) * 100 >= old(capacity) * 70 ==>
                fresh(cells) && fresh(links) && LeastPower(capacity, if old(capacity) < 4 then 8 else 2 * old(capacity))
    {
      hide Probing, Linked, Listed, Entries;
      if ShouldGrow() {
        TryRehash(if capacity * 2 > 8 then capacity * 2 else 8);
      }
      result := WriteValue(e, replace);
    }

    // ---------- deletion ----------

    /** The pointer changes of taking bucket `i` out of the list. */
    method Bypass(i: nat)
      requires Mutual(links[..]) && i < links.Length
      modifies links, `head, `tail
      ensures Bypassed(old(links[..]), i, links[..])
      ensures head == if old(links[i].previous) == NULL then old(links[i].next) else old(head)
      ensures tail == if old(links[i].next) == NULL then old(links[i].previous) else old(tail)
    {
      ghost var was := links[..];
      assert was[i] == links[i];
      if links[i].previous != NULL {
        var p := links[i].previous;
        links[p] := links[p].(next := links[i].next);
      } else {
        head := links[i].next;
      }
      if links[i].next != NULL {
        var n := links[i].next;
        links[n] := links[n].(previous := links[i].previous);
      } else {
        tail := links[i].previous;
      }
      links[i] := Link(NULL, NULL);
    }

    /** Takes bucket `i` out of the list. */
    method Unlink(i: nat, ghost k: nat)
      requires Chained() && ordered && k < |order| && order[k] == i
      modifies links, `head, `tail, `order
      ensures Chained() && order == Dropped(old(order), k)
    {
      hide Linked, Mutual;
      ghost var was := links[..];
      LinkedIsMutual(was, head, tail, order);
      Bypass(i);
      UnlinkLinked(was, old(head), old(tail), order, k, links[..]);
      order := Dropped(order, k);
    }

    /** `update_bucket_neighbors` after a bucket's links were moved from `src` to `dst`. */
    method UpdateNeighbors(dst: nat, src: nat, ghost was: seq<Link>)
      requires dst < links.Length && src < links.Length && dst != src
      requires |was| == links.Length && Mutual(was) && was[dst] == Link(NULL, NULL)
      requires links[..] == was[dst := was[src]][src := Link(NULL, NULL)]
      modifies links, `head, `tail
      ensures links[..] == Exchanged(was, src, dst)
      ensures head == if was[src].previous == NULL then dst else old(head)
      ensures tail == if was[src].next == NULL then dst else old(tail)
    {
      hide Mutual, Exchanged;
      NeighborsOf(was, dst, src);
      assert links[dst] == was[src];
      if links[dst].previous != NULL {
        var p := links[dst].previous;
        links[p] := links[p].(next := dst);
      } else {
        head := dst;
      }
      if links[dst].next != NULL {
        var n := links[dst].next;
        links[n] := links[n].(previous := dst);
      } else {
        tail := dst;
      }
      AllShifted(was, dst, src, links[..]);
    }

    /** Moves a bucket's list membership back into the hole. */
    method ShiftLinks(dst: nat, src: nat)
      requires Chained() && ordered && dst < links.Length && src < links.Length && dst != src
      requires dst !in order && src in order
      modifies links, `head, `tail, `order
      ensures Chained() && order == Renamed(old(order), src, dst)
    {
      hide Linked, Mutual;
      ghost var was := links[..];
      NotListed(was, head, tail, order, dst);
      AppendFacts(was, head, tail, order);
      LinkedIsMutual(was, head, tail, order);
      RenameLinked(was, head, tail, order, src, dst);
      EndsOfList(was, head, tail, order, src);
      EndsOfList(was, head, tail, order, head);
      EndsOfList(was, head, tail, order, tail);
      links[dst] := links[src];
      links[src] := Link(NULL, NULL);
      UpdateNeighbors(dst, src, was);
      order := Renamed(order, src, dst);
    }

    /** The state of the shift loop after bucket `p` of the table `s0` was emptied: the hole is at
        `to`, it used to hold probe length `v`, and `f` is some free bucket. */
    ghost predicate ShiftState(s0: seq<Cell<K, V>>, p: nat, to: nat, v: nat, f: nat)
      reads this, cells, links
    {
      && Shaped() && Chained() && p < capacity && to < capacity && f < capacity && |s0| == capacity && Used(s0[p])
      && var g := Table()[to := Freed(cells[to])];
      && Hole(hash, g, to, v) && Entries(g) == Entries(s0) - {s0[p].entry} && !Used(g[f]) && f != to
      && ShiftedFrom(s0, Table(), p, to)
      && Dist(capacity, p, to) + Dist(capacity, to, f) == Dist(capacity, p, f)
      && (ordered ==> forall i :: i in order <==> 0 <= i < capacity && i != to && Used(cells[i]))
    }

    /** Moves bucket `src` back into the hole `dst`; the hole is then at `src`. */
    method ShiftBucket(dst: nat, src: nat, state: nat)
      requires Shaped() && Chained() && dst < capacity && src < capacity && dst != src && Used(cells[src])
      requires ordered ==> forall i :: i in order <==> 0 <= i < capacity && i != dst && Used(cells[i])
      requires state != FREE
      modifies cells, links, `head, `tail, `order
      ensures Chained() && cells[..] == old(cells[..][dst := cells[src].(state := state)])
      ensures ordered ==> forall i :: i in order <==> 0 <= i < capacity && i != src && Used(cells[i])
      ensures ordered ==> Sequence() == old(Sequence())
    {
      hide Linked, Listed;
      ghost var c, o := EntrySeq(cells[..]), order;
      cells[dst] := cells[src].(state := state);
      if ordered {
        ShiftLinks(dst, src);
        ListedRenamed(c, EntrySeq(cells[..]), o, src, dst);
        forall i ensures i in order <==> 0 <= i < capacity && i != src && Used(cells[i]) {
          RenamedMembers(o, src, dst, i);
        }
      }
    }

    method ShiftStep(ghost s0: seq<Cell<K, V>>, ghost p: nat, to0: nat, ghost v: nat, ghost f: nat)
      returns (to: nat, done: bool, ghost v': nat)
      requires ShiftState(s0, p, to0, v, f)
      modifies cells, links, `head, `tail, `order
      ensures ShiftState(s0, p, to, v', f)
      ensures !done ==> Dist(capacity, to, f) < Dist(capacity, to0, f)
      ensures done ==> ShiftDone(to)
      ensures ordered ==> Sequence() == old(Sequence())
    {
      hide Linked, Listed, Entries, Hole, ShiftedFrom, Masked, UsedProbeLength;
      to, done, v' := to0, true, v;
      MaskStepsForward(to0);
      var from := Masked(to0 + 1);
      ghost var t, g := Table(), Table()[to0 := Freed(cells[to0])];
      assert from != to0 && g[from] == cells[from];
      if !Used(cells[from]) {
        return;
      }
      HoleHonest(hash, g, to0, v, from);
      assert Honest(hash, t, from);
      ProbeLengthIsTrue(from);
      var d := UsedProbeLength(from);
      if d == 0 {
        return;
      }
      ShiftBucket(to0, from, StateFor(d - 1));
      ghost var g' := Table()[from := Freed(cells[from])];
      assert Table() == t[to0 := t[from].(state := StateFor(d - 1))];
      assert g' == g[to0 := g[from].(state := StateFor(d - 1))][from := Freed(g[from])];
      ShiftBack(hash, g, to0, v, g');
      ShiftOne(s0, t, p, to0, f, Table());
      to, done, v' := from, false, d;
    }

    /** The place of bucket `p` in the list, and the list without it. */
    lemma {:induction false} PlaceInList(p: nat) returns (k: nat)
      requires Valid() && ordered && p < capacity && Used(cells[p])
      ensures k < |order| && order[k] == p
      ensures forall i :: i in Dropped(order, k) <==> 0 <= i < capacity && i != p && Used(cells[i])
      ensures forall j :: 0 <= j < |Dropped(order, k)| ==> 0 <= Dropped(order, k)[j] < cells.Length
      ensures Listed(EntrySeq(cells[..]), Dropped(order, k)) == WithoutEntry(Sequence(), cells[p].entry.key)
    {
      hide Probing, Entries, Linked, WithoutEntry, DistinctKeys;
      ListedContents();
      assert p in order;
      k :| k < |order| && order[k] == p;
      DroppedMembers(links[..], head, tail, order, k);
      ListedDropped(EntrySeq(cells[..]), order, k);
      WithoutAt(Sequence(), k);
    }

    /** Takes bucket `p` out of the list before its entry goes. */
    method LeaveList(p: nat)
      requires Valid() && p < capacity && Used(cells[p])
      modifies links, `head, `tail, `order
      ensures Shaped() && Chained()
      ensures ordered ==> forall i :: i in order <==> 0 <= i < capacity && i != p && Used(cells[i])
      ensures ordered ==> Sequence() == WithoutEntry(old(Sequence()), cells[p].entry.key)
    {
      if ordered {
        hide Probing, Entries, Linked, Listed, WithoutEntry, Dropped;
        ghost var k := PlaceInList(p);
        Unlink(p, k);
      }
    }

    /** Nothing more has to move back. */
    ghost predicate ShiftDone(to: nat)
      reads this, cells
      requires Shaped() && to < capacity
    {
      var (n, g) := (Next(capacity, to), Table()[to := Freed(cells[to])]);
      !Used(g[n]) || Probe(hash, g, n) == 0
    }

    /** Marks the last bucket as free. */
    method FreeLast(p: nat, to: nat, ghost s0: seq<Cell<K, V>>, ghost v: nat, ghost f: nat)
      requires ShiftState(s0, p, to, v, f) && ShiftDone(to)
      modifies cells
      ensures Shaped() && ListOk() && Probing(hash, Table()) && Contents() == Entries(s0) - {s0[p].entry}
      ensures ordered ==> Sequence() == old(Sequence())
      ensures forall k: nat :: k < p && Used(cells[k]) ==> HeldBefore(s0, p, cells[k].entry)
    {
      hide Linked, Listed, Entries, Hole, Probing, ShiftedFrom, HeldBefore;
      ghost var t, c, g := Table(), EntrySeq(cells[..]), Table()[to := Freed(cells[to])];
      CloseHole(hash, g, to, v);
      cells[to] := Freed(cells[to]);
      assert Table() == g && EntrySeq(cells[..]) == c;
      forall k: nat | k < p && Used(cells[k]) ensures HeldBefore(s0, p, cells[k].entry) {
        StillInFront(s0, t, p, to, k);
      }
    }

    /** Shifts the buckets behind the hole back, up to a free bucket or one at its home. */
    method ShiftAll(p: nat, ghost s0: seq<Cell<K, V>>, ghost v0: nat, ghost f: nat)
      requires ShiftState(s0, p, p, v0, f)
      modifies cells, links, `head, `tail, `order
      ensures Shaped() && ListOk() && Probing(hash, Table()) && Contents() == Entries(s0) - {s0[p].entry}
      ensures ordered ==> Sequence() == old(Sequence())
      ensures forall k: nat :: k < p && Used(cells[k]) ==> HeldBefore(s0, p, cells[k].entry)
    {
      hide Linked, Listed, Entries, Hole, Probing, ShiftedFrom, HeldBefore;
      var to, done := p, false;
      ghost var v := v0;
      while !done
        invariant ShiftState(s0, p, to, v, f) && (done ==> ShiftDone(to))
        invariant ordered ==> Sequence() == old(Sequence())
        decreases !done, Dist(capacity, to, f)
      {
        to, done, v := ShiftStep(s0, p, to, v, f);
      }
      FreeLast(p, to, s0, v, f);
    }

    method DeleteBucket(p: nat)
      requires Valid() && p < capacity && Used(cells[p])
      modifies cells, links, `head, `tail, `order, `size
      ensures Valid() && Contents() == old(Contents()) - {old(cells[p].entry)} && size == old(size) - 1
      ensures ordered ==> Sequence() == WithoutEntry(old(Sequence()), old(cells[p].entry.key))
      ensures forall k: nat :: k < p && Used(cells[k]) ==> HeldBefore(old(Table()), p, cells[k].entry)
    {
      hide Linked, Listed, Entries, Hole;
      ghost var s0 := Table();
      ghost var f := SomeFree();
      OpenHole(hash, s0, p);
      LeaveList(p);
      size := size - 1;
      ShiftAll(p, s0, Probe(hash, s0, p), f);
    }

    method Remove(key: K) returns (found: bool)
      requires Valid()
      modifies cells, links, `head, `tail, `order, `size
      ensures Valid() && found == HasKey(old(Contents()), key)
      ensures Contents() == set x | x in old(Contents()) && x.key != key
      ensures ordered ==> Sequence() == WithoutEntry(old(Sequence()), key)
    {
      hide Probing, Linked, Listed, Entries;
      var i := LookupWithHash(hash(key), key);
      found := i != NULL;
      if found {
        UniqueOf(hash, Table());
        OneWithKey(Table(), i);
        DeleteBucket(i);
      } else if ordered {
        ListedContents();
        WithoutAbsent(Sequence(), key);
      }
    }

    /** No bucket in front of `i` matches. */
    ghost predicate ClearBefore(i: nat, matches: Entry<K, V> -> bool)
      reads this, cells
      requires Shaped() && i <= capacity
    {
      forall k: nat :: k < i && Used(cells[k]) ==> !matches(cells[k].entry)
    }

    lemma {:induction false} ClearAtFirst(matches: Entry<K, V> -> bool)
      requires Shaped()
      ensures ClearBefore(0, matches)
    {
    }

    lemma {:induction false} ClearStep(i: nat, matches: Entry<K, V> -> bool)
      requires Shaped() && i < capacity && ClearBefore(i, matches) && (Used(cells[i]) ==> !matches(cells[i].entry))
      ensures ClearBefore(i + 1, matches)
    {
    }

    /** Deletes a matching bucket; what lies in front of it still does not match, even when the
        shift wraps past the end of the array. */
    method DeleteMatching(i: nat, matches: Entry<K, V> -> bool)
      requires Valid() && i < capacity && Used(cells[i]) && matches(cells[i].entry) && ClearBefore(i, matches)
      modifies cells, links, `head, `tail, `order, `size
      ensures Valid() && ClearBefore(i, matches) && size == old(size) - 1
      ensures old(cells[i].entry in Contents()) && Contents() == old(Contents()) - {old(cells[i].entry)}
      ensures !HasKey(Contents(), old(cells[i].entry.key))
      ensures ordered ==> Kept(Sequence(), matches) == Kept(old(Sequence()), matches)
    {
      hide Probing, Linked, Listed, Entries;
      ghost var x, s := cells[i].entry, Table();
      UniqueOf(hash, s);
      OneWithKey(s, i);
      if ordered {
        ListedContents();
        KeptWithout(Sequence(), x, matches);
      }
      DeleteBucket(i);
      forall k: nat | k < i && Used(cells[k]) ensures !matches(cells[k].entry) {
        assert HeldBefore(s, i, cells[k].entry);
      }
    }

    /** `take_all_matching`: every matching entry is taken once, although deletions shift buckets
        under the index. */
    method TakeAllMatching(matches: Entry<K, V> -> bool) returns (values: seq<Entry<K, V>>)
      requires Valid()
      modifies cells, links, `head, `tail, `order, `size
      ensures Valid() && Contents() == set x | x in old(Contents()) && !matches(x)
      ensures AsSet(values) == (set x | x in old(Contents()) && matches(x)) && DistinctKeys(values)
      ensures ordered ==> Sequence() == Kept(old(Sequence()), matches)
    {
      hide Probing, Linked, Listed, Entries, Taken, Kept, HasKey, AsSet, DistinctKeys, ClearBefore;
      ClearAtFirst(matches);
      values := [];
      TakenNothing(Contents(), matches);
      var i := 0;
      while i < capacity
        invariant Valid() && i <= capacity && ClearBefore(i, matches)
        invariant Taken(old(Contents()), Contents(), values, matches)
        invariant ordered ==> Kept(Sequence(), matches) == Kept(old(Sequence()), matches)
        decreases size, capacity - i
      {
        if !Used(cells[i]) || !matches(cells[i].entry) {
          ClearStep(i, matches);
          i := i + 1;
        } else {
          ghost var x, c := cells[i].entry, Contents();
          assert (values + [x])[..|values|] == values;
          values := values + [cells[i].entry];
          DeleteMatching(i, matches);
          TakeOne(old(Contents()), c, Contents(), values, x, matches);
          if !Used(cells[i]) {
            ClearStep(i, matches);
            i := i + 1;
          }
        }
      }
      NothingMatches(matches);
      TakenAll(old(Contents()), Contents(), values, matches);
    }

    /** `remove_all_matching`: exactly the entries that do not match stay. */
    method RemoveAllMatching(matches: Entry<K, V> -> bool) returns (removed: bool)
      requires Valid()
      modifies cells, links, `head, `tail, `order, `size
      ensures Valid() && Contents() == set x | x in old(Contents()) && !matches(x)
      ensures removed <==> exists x :: x in old(Contents()) && matches(x)
      ensures ordered ==> Sequence() == Kept(old(Sequence()), matches)
    {
      hide Probing, Linked, Listed, Entries, Taken, Kept, HasKey, AsSet, DistinctKeys, ClearBefore;
      ClearAtFirst(matches);
      removed := false;
      ghost var values := [];
      TakenNothing(Contents(), matches);
      var i := 0;
      while i < capacity
        invariant Valid() && i <= capacity && ClearBefore(i, matches)
        invariant Taken(old(Contents()), Contents(), values, matches) && (removed <==> values != [])
        invariant ordered ==> Kept(Sequence(), matches) == Kept(old(Sequence()), matches)
        decreases size, capacity - i
      {
        if !Used(cells[i]) || !matches(cells[i].entry) {
          ClearStep(i, matches);
          i := i + 1;
        } else {
          ghost var x, c := cells[i].entry, Contents();
          assert (values + [x])[..|values|] == values;
          values := values + [x];
          DeleteMatching(i, matches);
          removed := true;
          TakeOne(old(Contents()), c, Contents(), values, x, matches);
          if !Used(cells[i]) {
            ClearStep(i, matches);
            i := i + 1;
          }
        }
      }
      NothingMatches(matches);
      TakenAll(old(Contents()), Contents(), values, matches);
    }

    lemma {:induction false} NothingMatches(matches: Entry<K, V> -> bool)
      requires Valid() && ClearBefore(capacity, matches)
      ensures forall x :: x in Contents() ==> !matches(x)
      ensures ordered ==> Kept(Sequence(), matches) == Sequence()
    {
      if ordered {
        ListedContents();
        assert forall x :: x in Sequence() ==> x in AsSet(Sequence());
        KeptAll(Sequence(), matches);
      }
    }

    // ---------- traversal ----------

    /** Following `next` from the head. */
    method Forward() returns (values: seq<Entry<K, V>>)
      requires Valid() && ordered
      ensures values == Sequence()
    {
      hide Probing, Entries;
      values := [];
      var it := head;
      ghost var k := 0;
      while it != NULL
        invariant k <= |order| && it == At(order, k) && values == Sequence()[..k]
        decreases |order| - k
      {
        assert Joined(links[..], order, k);
        values := values + [cells[it].entry];
        it := links[it].next;
        k := k + 1;
      }
    }

    /** Following `previous` from the tail. */
    method Backward() returns (values: seq<Entry<K, V>>)
      requires Valid() && ordered
      ensures |values| == |Sequence()|
      ensures forall k :: 0 <= k < |values| ==> values[k] == Sequence()[|values| - 1 - k]
    {
      hide Probing, Entries;
      values := [];
      var it := tail;
      ghost var k := |order|;
      while it != NULL
        invariant 0 <= k <= |order| && it == At(order, k - 1) && |values| == |order| - k
        invariant forall j :: 0 <= j < |values| ==> values[j] == Sequence()[|order| - 1 - j]
        decreases k
      {
        assert Joined(links[..], order, k - 1);
        values := values + [cells[it].entry];
        it := links[it].previous;
        k := k - 1;
      }
    }

    /** `ensure_capacity`: room for `n` values before the next growth. */
    method EnsureCapacity(n: nat)
      requires Valid()
      modifies this
      ensures Valid() && Contents() == old(Contents()) && (ordered ==> Sequence() == old(Sequence()))
      ensures (cells == old(cells) || fresh(cells)) && (links == old(links) || fresh(links))
      ensures n * 100 < capacity * 70
      ensures n * 100 < old(capacity) * 70 ==> capacity == old(capacity) && cells == old(cells) && links == old(links)
      ensures n * 100 >= old(capacity) * 70 ==> fresh(cells) && fresh(links) && LeastPower(capacity, n * 100 / 70 + 1)
      ensures size == old(size)
    {
      hide Probing, Linked, Listed, Entries;
      var required := n * 100 / 70 + 1;
      assert n * 100 < required * 70;
      if required > capacity {
        TryRehash(required);
      }
    }

    /** What `ensure_capacity` promises: up to the number of values it was given, no write reallocates. */
    method SetAll(entries: seq<Entry<K, V>>, replace: bool)
      requires Valid() && (size + |entries|) * 100 < capacity * 70
      modifies this, cells, links
      ensures Valid() && capacity == old(capacity) && cells == old(cells) && links == old(links)
      ensures size <= old(size) + |entries|
    {
      hide Probing, Linked, Listed, Entries;
      for i := 0 to |entries|
        invariant Valid() && capacity == old(capacity) && cells == old(cells) && links == old(links)
        invariant size <= old(size) + i
      {
        var _ := Set(entries[i], replace);
      }
    }
  }

  /** `values` are the entries taken so far out of `c0`, and `c` is the rest. */
  ghost predicate Taken<K(!new), V(!new)>(c0: set<Entry<K, V>>, c: set<Entry<K, V>>, values: seq<Entry<K, V>>, matches: Entry<K, V> -> bool) {
    && AsSet(values) + c == c0 && DistinctKeys(values)
    && forall x :: x in values ==> matches(x) && !HasKey(c, x.key)
  }

  lemma {:induction false} TakenNothing<K(!new), V(!new)>(c: set<Entry<K, V>>, matches: Entry<K, V> -> bool)
    ensures Taken(c, c, [], matches)
  {
    assert AsSet<Entry<K, V>>([]) + c == c;
  }

  lemma {:induction false} TakeOne<K(!new), V(!new)>(c0: set<Entry<K, V>>, c: set<Entry<K, V>>, c': set<Entry<K, V>>,
      values: seq<Entry<K, V>>, x: Entry<K, V>, matches: Entry<K, V> -> bool)
    requires values != [] && values[|values| - 1] == x && Taken(c0, c, values[..|values| - 1], matches)
    requires x in c && matches(x) && c' == c - {x} && !HasKey(c', x.key)
    ensures Taken(c0, c', values, matches)
  {
    var v := values[..|values| - 1];
    assert values == v + [x];
    assert AsSet(values) == AsSet(v) + {x};
    forall j, k | 0 <= j < k < |values| ensures values[j].key != values[k].key {
      if k == |v| {
        assert v[j] in v && !HasKey(c, v[j].key);
      }
    }
    forall y | y in values ensures matches(y) && !HasKey(c', y.key) {
      if y != x {
        assert y in v;
      }
    }
  }

  lemma {:induction false} TakenAll<K(!new), V(!new)>(c0: set<Entry<K, V>>, c: set<Entry<K, V>>, values: seq<Entry<K, V>>, matches: Entry<K, V> -> bool)
    requires Taken(c0, c, values, matches) && forall x :: x in c ==> !matches(x)
    ensures c == set x | x in c0 && !matches(x)
    ensures AsSet(values) == (set x | x in c0 && matches(x)) && DistinctKeys(values)
    ensures values != [] <==> exists x :: x in c0 && matches(x)
  {
    if values != [] {
      assert values[0] in AsSet(values);
    }
  }

  lemma {:induction false} KeptAll<T>(s: seq<T>, matches: T -> bool)
    requires forall x :: x in s ==> !matches(x)
    ensures Kept(s, matches) == s
  {
    if s != [] {
      KeptAll(s[1..], matches);
    }
  }

  /** What is left of a sequence when everything that matches goes. */
  ghost function Kept<T>(s: seq<T>, matches: T -> bool): seq<T> {
    if s == [] then [] else (if matches(s[0]) then [] else [s[0]]) + Kept(s[1..], matches)
  }

  lemma {:induction false} KeptWithout<K, V>(s: seq<Entry<K, V>>, x: Entry<K, V>, matches: Entry<K, V> -> bool)
    requires DistinctKeys(s) && x in s && matches(x)
    ensures Kept(WithoutEntry(s, x.key), matches) == Kept(s, matches)
  {
    if s[0] != x {
      assert s[0].key != x.key;
      KeptWithout(s[1..], x, matches);
    }
  }

  lemma {:induction false} WithoutAbsent<K, V>(s: seq<Entry<K, V>>, key: K)
    requires forall x :: x in s ==> x.key != key
    ensures WithoutEntry(s, key) == s
  {
    if s != [] {
      WithoutAbsent(s[1..], key);
    }
  }

  /** The sequence without the entry that has a key. */
  ghost function WithoutEntry<K, V>(s: seq<Entry<K, V>>, key: K): seq<Entry<K, V>> {
    if s == [] then [] else if s[0].key == key then s[1..] else [s[0]] + WithoutEntry(s[1..], key)
  }

  lemma {:induction false} WithoutAt<K, V>(s: seq<Entry<K, V>>, k: nat)
    requires DistinctKeys(s) && k < |s|
    ensures WithoutEntry(s, s[k].key) == s[..k] + s[k + 1..]
  {
    if k > 0 {
      WithoutAt(s[1..], k - 1);
      assert s[1..][..k - 1] == s[1..k] && s[1..][k..] == s[k + 1..];
      assert s[..k] + s[k + 1..] == [s[0]] + (s[1..k] + s[k + 1..]);
    }
  }

  ghost function AsSet<T>(s: seq<T>): set<T> {
    set x | x in s
  }

  ghost predicate DistinctKeys<K, V>(s: seq<Entry<K, V>>) {
    forall j, k :: 0 <= j < k < |s| ==> s[j].key != s[k].key
  }

  lemma {:induction false} NextIsNew<K, V>(s: seq<Entry<K, V>>, k: nat)
    requires DistinctKeys(s) && k < |s|
    ensures !HasKey(AsSet(s[..k]), s[k].key)
    ensures Put(AsSet(s[..k]), s[k]) == AsSet(s[..k + 1]) && s[..k] + [s[k]] == s[..k + 1]
  {
    assert s[..k + 1] == s[..k] + [s[k]];
    forall x | x in s[..k] ensures x.key != s[k].key {
    }
  }

  lemma {:induction false} DistinctSize<K, V>(s: seq<Entry<K, V>>)
    requires DistinctKeys(s)
    ensures |AsSet(s)| == |s|
  {
    if s != [] {
      var n := |s| - 1;
      DistinctSize(s[..n]);
      NextIsNew(s, n);
      assert s[..n + 1] == s && AsSet(s) == AsSet(s[..n]) + {s[n]};
    }
  }

  /** The exponent of the next power of two: `ceil_log2`. */
  function CeilLog2(n: nat): (k: nat)
    ensures Bits.Pow2(k) >= n
    ensures k > 0 ==> Bits.Pow2(k - 1) < n
  {
    if n <= 1 then 0 else CeilLog2((n + 1) / 2) + 1
  }

  /** The least power of two that is not below `n`. */
  ghost predicate LeastPower(p: nat, n: nat) {
    exists k: nat :: p == Bits.Pow2(k) && n <= p && (k > 0 ==> Bits.Pow2(k - 1) < n)
  }

  /** What a write reports. */
  ghost function Outcome<K, V>(contents: set<Entry<K, V>>, key: K, replace: bool): SetResult {
    if !HasKey(contents, key) then InsertedNewEntry
    else if replace then ReplacedExistingEntry else KeptExistingEntry
  }

  /** A new entry goes to the end; a replaced one keeps its place. */
  ghost function SequenceAfter<K, V>(s: seq<Entry<K, V>>, e: Entry<K, V>, result: SetResult): seq<Entry<K, V>> {
    match result
    case InsertedNewEntry => s + [e]
    case ReplacedExistingEntry => Replaced(s, e)
    case KeptExistingEntry => s
  }

  // ---------- whole runs ----------

  datatype Op<!K, !V> =
    | SetOp(entry: Entry<K, V>, replace: bool)
    | RemoveOp(key: K)
    | EnsureCapacityOp(n: nat)
    | RemoveAllOp(matches: Entry<K, V> -> bool)
    | TakeAllOp(matches: Entry<K, V> -> bool)

  /** What an operation makes of a list of entries in the order of first insertion. */
  ghost function Apply<K, V>(s: seq<Entry<K, V>>, op: Op<K, V>): (r: seq<Entry<K, V>>)
    requires DistinctKeys(s)
    ensures DistinctKeys(r)
  {
    match op
    case SetOp(e, replace) =>
      ModelStep(s, e, Outcome(AsSet(s), e.key, replace));
      SequenceAfter(s, e, Outcome(AsSet(s), e.key, replace))
    case RemoveOp(k) =>
      ModelRemove(s, k);
      WithoutEntry(s, k)
    case EnsureCapacityOp(_) => s
    case RemoveAllOp(matches) =>
      ModelKept(s, matches);
      Kept(s, matches)
    case TakeAllOp(matches) =>
      ModelKept(s, matches);
      Kept(s, matches)
  }

  /** The reference: the list that a run leaves. */
  ghost function Model<K, V>(ops: seq<Op<K, V>>): (s: seq<Entry<K, V>>)
    ensures DistinctKeys(s)
  {
    if ops == [] then [] else Apply(Model(ops[..|ops| - 1]), ops[|ops| - 1])
  }

  lemma {:induction false} KeptMember<T>(s: seq<T>, matches: T -> bool, x: T)
    ensures x in Kept(s, matches) <==> x in s && !matches(x)
  {
    if s != [] {
      KeptMember(s[1..], matches, x);
      assert s == [s[0]] + s[1..];
    }
  }

  lemma {:induction false} KeptDistinct<K, V>(s: seq<Entry<K, V>>, matches: Entry<K, V> -> bool)
    requires DistinctKeys(s)
    ensures DistinctKeys(Kept(s, matches))
  {
    if s != [] {
      var t := s[1..];
      KeptDistinct(t, matches);
      var r := Kept(t, matches);
      forall k | 0 <= k < |r| ensures s[0].key != r[k].key {
        KeptMember(t, matches, r[k]);
        var j :| 0 <= j < |t| && t[j] == r[k];
        assert s[j + 1] == r[k];
      }
    }
  }

  lemma {:induction false} ModelKept<K, V>(s: seq<Entry<K, V>>, matches: Entry<K, V> -> bool)
    requires DistinctKeys(s)
    ensures DistinctKeys(Kept(s, matches)) && AsSet(Kept(s, matches)) == set x | x in AsSet(s) && !matches(x)
  {
    KeptDistinct(s, matches);
    var kept := set x | x in AsSet(s) && !matches(x);
    forall x ensures x in AsSet(Kept(s, matches)) <==> x in kept {
      KeptMember(s, matches, x);
    }
    assert AsSet(Kept(s, matches)) == kept;
  }

  lemma {:induction false} ModelStep<K, V>(s: seq<Entry<K, V>>, e: Entry<K, V>, result: SetResult)
    requires DistinctKeys(s) && exists replace :: result == Outcome(AsSet(s), e.key, replace)
    ensures DistinctKeys(SequenceAfter(s, e, result))
    ensures AsSet(SequenceAfter(s, e, result)) == if result == KeptExistingEntry then AsSet(s) else Put(AsSet(s), e)
  {
    match result
    case InsertedNewEntry =>
      forall k | 0 <= k < |s| ensures s[k].key != e.key {
        assert s[k] in AsSet(s);
      }
      assert (s + [e])[|s|] == e;
      assert AsSet(s + [e]) == AsSet(s) + {e};
    case ReplacedExistingEntry =>
      ReplacedSet(s, e);
    case KeptExistingEntry =>
  }

  lemma {:induction false} ReplacedListed<K, V>(s: seq<Cell<K, V>>, t: seq<Cell<K, V>>, order: seq<int>, i: nat, e: Entry<K, V>)
    requires i < |s| && s[i].entry.key == e.key && t == s[i := s[i].(entry := e)]
    requires forall k :: 0 <= k < |order| ==> 0 <= order[k] < |s|
    requires forall j :: 0 <= j < |s| && j in order && j != i ==> s[j].entry.key != e.key
    ensures Listed(EntrySeq(t), order) == Replaced(Listed(EntrySeq(s), order), e)
  {
    forall k | 0 <= k < |order| ensures t[order[k]].entry == if s[order[k]].entry.key == e.key then e else s[order[k]].entry {
      assert order[k] in order;
    }
  }

  lemma {:induction false} ReplacedSet<K, V>(s: seq<Entry<K, V>>, e: Entry<K, V>)
    requires DistinctKeys(s) && HasKey(AsSet(s), e.key)
    ensures DistinctKeys(Replaced(s, e)) && AsSet(Replaced(s, e)) == Put(AsSet(s), e)
  {
    var r := Replaced(s, e);
    var x :| x in AsSet(s) && x.key == e.key;
    var m :| 0 <= m < |s| && s[m] == x;
    assert r[m] == e;
    forall y | y in AsSet(s) && y.key != e.key ensures y in AsSet(r) {
      var k :| 0 <= k < |s| && s[k] == y;
      assert r[k] == y;
    }
    forall y | y in AsSet(r) ensures y in Put(AsSet(s), e) {
      var k :| 0 <= k < |r| && r[k] == y;
    }
  }

  lemma {:induction false} ModelRemove<K, V>(s: seq<Entry<K, V>>, key: K)
    requires DistinctKeys(s)
    ensures DistinctKeys(WithoutEntry(s, key))
    ensures AsSet(WithoutEntry(s, key)) == set x | x in AsSet(s) && x.key != key
  {
    if s != [] {
      var t := s[1..];
      ModelRemove(t, key);
      assert s == [s[0]] + t;
      assert AsSet(s) == {s[0]} + AsSet(t);
      if s[0].key != key {
        var r := WithoutEntry(t, key);
        assert AsSet([s[0]] + r) == {s[0]} + AsSet(r);
        forall k | 0 <= k < |r| ensures s[0].key != r[k].key {
          assert r[k] in AsSet(r) && r[k] in AsSet(t);
        }
      }
    }
  }

  /** One operation of a run does to the table what it does to the reference. */
  method Perform<K(!new, ==), V(!new)>(table: HashTable<K, V>, op: Op<K, V>, ghost s: seq<Entry<K, V>>)
    requires table.Valid() && DistinctKeys(s) && table.Contents() == AsSet(s) && (table.ordered ==> table.Sequence() == s)
    modifies table, table.cells, table.links
    ensures table.Valid() && table.Contents() == AsSet(Apply(s, op))
    ensures table.ordered ==> table.Sequence() == Apply(s, op)
    ensures table.cells == old(table.cells) || fresh(table.cells)
    ensures table.links == old(table.links) || fresh(table.links)
  {
    hide Probing, Linked, Entries, AsSet, DistinctKeys, Kept;
    match op {
      case SetOp(e, replace) =>
        var result := table.Set(e, replace);
        ModelStep(s, e, result);
      case RemoveOp(k) =>
        ModelRemove(s, k);
        var _ := table.Remove(k);
      case EnsureCapacityOp(n) =>
        table.EnsureCapacity(n);
      case RemoveAllOp(matches) =>
        ModelKept(s, matches);
        var _ := table.RemoveAllMatching(matches);
      case TakeAllOp(matches) =>
        ModelKept(s, matches);
        var _ := table.TakeAllMatching(matches);
    }
  }

  /** Every run refines the reference list; with insertion order the table lists exactly that list. */
  method Replay<K(!new, ==), V(!new)>(hash: K -> nat, slowEquality: bool, ordered: bool, blank: Cell<K, V>, ops: seq<Op<K, V>>)
    returns (table: HashTable<K, V>)
    requires !Used(blank)
    ensures fresh(table) && table.Valid() && table.Contents() == AsSet(Model(ops))
    ensures table.ordered == ordered && (ordered ==> table.Sequence() == Model(ops))
  {
    hide Probing, Linked, Entries, Apply;
    table := new HashTable(hash, slowEquality, ordered, blank);
    for i := 0 to |ops|
      invariant fresh(table) && fresh(table.cells) && fresh(table.links) && table.ordered == ordered
      invariant table.Valid() && table.Shaped() && table.Contents() == AsSet(Model(ops[..i]))
      invariant ordered ==> table.Chained() && table.Sequence() == Model(ops[..i])
    {
      assert ops[..i + 1][..i] == ops[..i];
      Perform(table, ops[i], Model(ops[..i]));
    }
    assert ops[..|ops|] == ops;
  }
}
