/** The probing invariant of `AK/HashTable.h`, on a sequence of buckets. */
module RobinHood {

  datatype Entry<K, V> = Entry(key: K, value: V)

  /** The part of a bucket that lookups look at. A state of 0 is Free; a state `p + 1` means
      probe length `p`; 255 stands for every probe length above 253. */
  datatype Cell<K, V> = Cell(state: nat, hash: nat, entry: Entry<K, V>)

  const FREE := 0
  const CALCULATE_LENGTH := 255

  function StateFor(probeLength: nat): (s: nat)
    ensures s != FREE && s <= CALCULATE_LENGTH
  {
    if probeLength > 253 then CALCULATE_LENGTH else probeLength + 1
  }

  predicate Used<K, V>(b: Cell<K, V>) {
    b.state != FREE
  }

  // ---------- the ring of buckets ----------

  function Next(cap: nat, i: nat): (r: nat)
    requires i < cap
    ensures r < cap
  {
    if i + 1 == cap then 0 else i + 1
  }

  function Prev(cap: nat, i: nat): (r: nat)
    requires i < cap
    ensures r < cap && Next(cap, r) == i
  {
    if i == 0 then cap - 1 else i - 1
  }

  /** How many steps forward lead from `h` to `i`. */
  function Dist(cap: nat, h: nat, i: nat): (r: nat)
    requires h < cap && i < cap
    ensures r < cap && (r == 0 <==> h == i)
  {
    if i >= h then i - h else cap + i - h
  }

  function Home<K(!new), V>(hash: K -> nat, cap: nat, e: Entry<K, V>): (h: nat)
    requires cap > 0
    ensures h < cap
  {
    hash(e.key) % cap
  }

  /** The true probe length of the entry in bucket `i`. */
  function Probe<K(!new), V>(hash: K -> nat, s: seq<Cell<K, V>>, i: nat): (d: nat)
    requires i < |s|
    ensures d < |s|
  {
    Dist(|s|, Home(hash, |s|, s[i].entry), i)
  }

  // ---------- the invariant ----------

  /** Each used bucket's state byte and stored hash tell the truth. */
  ghost predicate Honest<K(!new), V>(hash: K -> nat, s: seq<Cell<K, V>>, i: nat)
    requires i < |s|
  {
    Used(s[i]) ==> s[i].state == StateFor(Probe(hash, s, i)) && s[i].hash == hash(s[i].entry.key)
  }

  /** Behind every entry that is away from home comes an entry at most one step richer. */
  ghost predicate Steps<K(!new), V>(hash: K -> nat, s: seq<Cell<K, V>>, i: nat)
    requires i < |s|
  {
    var p := Prev(|s|, i);
    Used(s[i]) && Probe(hash, s, i) > 0 ==> Used(s[p]) && Probe(hash, s, p) + 1 >= Probe(hash, s, i)
  }

  ghost predicate Unique<K, V>(s: seq<Cell<K, V>>) {
    forall i, j :: 0 <= i < j < |s| && Used(s[i]) && Used(s[j]) ==> s[i].entry.key != s[j].entry.key
  }

  ghost predicate Probing<K(!new), V>(hash: K -> nat, s: seq<Cell<K, V>>) {
    && (forall i :: 0 <= i < |s| ==> Honest(hash, s, i))
    && (forall i :: 0 <= i < |s| ==> Steps(hash, s, i))
    && Unique(s)
  }

  lemma {:induction false} HonestAt<K(!new), V>(hash: K -> nat, s: seq<Cell<K, V>>, i: nat)
    requires i < |s| && Probing(hash, s)
    ensures Honest(hash, s, i)
  {
  }

  lemma {:induction false} UniqueOf<K(!new), V>(hash: K -> nat, s: seq<Cell<K, V>>)
    requires Probing(hash, s)
    ensures Unique(s)
  {
  }

  /** What the table holds. */
  ghost function Entries<K, V>(s: seq<Cell<K, V>>): set<Entry<K, V>> {
    set i | 0 <= i < |s| && Used(s[i]) :: s[i].entry
  }

  ghost function EntrySeq<K, V>(s: seq<Cell<K, V>>): seq<Entry<K, V>> {
    seq(|s|, i requires 0 <= i < |s| => s[i].entry)
  }

  // ---------- consequences ----------

  /** From an entry's home to its bucket there is no free bucket, and each bucket on the way is
      at least as far from its own home as it is from this one. */
  lemma {:induction false} OnTheWay<K(!new), V>(hash: K -> nat, s: seq<Cell<K, V>>, i: nat, j: nat)
    requires i < |s| && j < |s| && Used(s[i])
    requires forall k :: 0 <= k < |s| ==> Steps(hash, s, k)
    requires Dist(|s|, Home(hash, |s|, s[i].entry), j) <= Probe(hash, s, i)
    ensures Used(s[j]) && Probe(hash, s, j) >= Dist(|s|, Home(hash, |s|, s[i].entry), j)
    decreases Probe(hash, s, i) - Dist(|s|, Home(hash, |s|, s[i].entry), j)
  {
    if i != j {
      var n := Next(|s|, j);
      OnTheWay(hash, s, i, n);
      assert Steps(hash, s, n);
    }
  }

  /** A probe for `key` has walked from `home` up to, but not including, bucket `j`. */
  ghost predicate Passed<K, V>(s: seq<Cell<K, V>>, key: K, home: nat, j: nat)
    requires home < |s| && j < |s|
  {
    forall k: nat :: k < |s| && Dist(|s|, home, k) < Dist(|s|, home, j) ==> Used(s[k]) && s[k].entry.key != key
  }

  lemma {:induction false} PassedNothing<K, V>(s: seq<Cell<K, V>>, key: K, home: nat)
    requires home < |s|
    ensures Passed(s, key, home, home)
  {
  }

  lemma {:induction false} PrevOfNext(cap: nat, i: nat)
    requires i < cap
    ensures Prev(cap, Next(cap, i)) == i
  {
  }

  /** A table of free buckets. */
  lemma {:induction false} FreeProbing<K(!new), V>(hash: K -> nat, s: seq<Cell<K, V>>)
    requires forall i :: 0 <= i < |s| ==> !Used(s[i])
    ensures Probing(hash, s) && Entries(s) == {}
  {
  }

  /** A probe that meets another key goes on, and cannot come round: some bucket is free. */
  lemma {:induction false} PassOne<K, V>(s: seq<Cell<K, V>>, key: K, home: nat, j: nat, f: nat)
    requires home < |s| && j < |s| && f < |s| && Passed(s, key, home, j)
    requires Used(s[j]) && s[j].entry.key != key && !Used(s[f])
    ensures Passed(s, key, home, Next(|s|, j))
    ensures Dist(|s|, home, Next(|s|, j)) == Dist(|s|, home, j) + 1
    ensures Dist(|s|, Next(|s|, j), f) == Dist(|s|, j, f) - 1
  {
    assert Dist(|s|, home, f) >= Dist(|s|, home, j);
  }

  /** An entry whose probe would already be longer than that of the bucket it meets is absent:
      stealing that bucket never makes a duplicate. */
  lemma {:induction false} AbsentWhenRicher<K(!new), V>(hash: K -> nat, s: seq<Cell<K, V>>, key: K, j: nat)
    requires j < |s| && Probing(hash, s)
    requires var h := hash(key) % |s|;
             (Used(s[j]) ==> Probe(hash, s, j) < Dist(|s|, h, j)) && Passed(s, key, h, j)
    ensures forall i :: 0 <= i < |s| && Used(s[i]) ==> s[i].entry.key != key
  {
    var h := hash(key) % |s|;
    forall i | 0 <= i < |s| && Used(s[i]) ensures s[i].entry.key != key {
      if s[i].entry.key == key {
        if Dist(|s|, h, i) >= Dist(|s|, h, j) {
          OnTheWay(hash, s, i, j);
        }
      }
    }
  }

  /** With fewer entries than buckets, some bucket is free. */
  lemma {:induction false} FreeExists<K, V>(s: seq<Cell<K, V>>)
    requires Unique(s) && |Entries(s)| < |s|
    ensures exists f :: 0 <= f < |s| && !Used(s[f])
  {
    if forall f :: 0 <= f < |s| ==> Used(s[f]) {
      AllUsedCount(s);
    }
  }

  lemma {:induction false} AllUsedCount<K, V>(s: seq<Cell<K, V>>)
    requires Unique(s) && forall f :: 0 <= f < |s| ==> Used(s[f])
    ensures |Entries(s)| == |s|
  {
    if s != [] {
      var n := |s| - 1;
      var t := s[..n];
      AllUsedCount(t);
      assert Entries(s) == Entries(t) + {s[n].entry};
      assert s[n].entry !in Entries(t);
    }
  }

  /** Overwriting one bucket changes the contents by one entry out and one in. */
  lemma {:induction false} EntriesUpdate<K, V>(s: seq<Cell<K, V>>, i: nat, b: Cell<K, V>)
    requires i < |s| && Unique(s)
    ensures Entries(s[i := b]) == Entries(s)
              - (if Used(s[i]) then {s[i].entry} else {}) + (if Used(b) then {b.entry} else {})
    ensures Used(s[i]) ==> s[i].entry in Entries(s)
  {
    var t := s[i := b];
    assert forall k :: 0 <= k < |s| && k != i ==> t[k] == s[k];
    forall e | e in Entries(t)
      ensures e in Entries(s) - (if Used(s[i]) then {s[i].entry} else {}) + (if Used(b) then {b.entry} else {})
    {
      var k :| 0 <= k < |t| && Used(t[k]) && t[k].entry == e;
    }
    forall e | e in Entries(s) - (if Used(s[i]) then {s[i].entry} else {}) + (if Used(b) then {b.entry} else {})
      ensures e in Entries(t)
    {
      if Used(b) && e == b.entry {
        assert t[i].entry == e;
      } else {
        var k :| 0 <= k < |s| && Used(s[k]) && s[k].entry == e;
        assert t[k].entry == e;
      }
    }
  }

  // ---------- insertion ----------

  /** Writing an entry into a free bucket, or over a richer one, keeps the invariant, provided the
      bucket behind is poor enough. */
  lemma {:induction false} Place<K(!new), V>(hash: K -> nat, s: seq<Cell<K, V>>, j: nat, c: Cell<K, V>)
    requires j < |s| && Probing(hash, s)
    requires c.hash == hash(c.entry.key)
    requires c.state == StateFor(Dist(|s|, Home(hash, |s|, c.entry), j))
    requires Used(s[j]) ==> Probe(hash, s, j) < Dist(|s|, Home(hash, |s|, c.entry), j)
    requires var d := Dist(|s|, Home(hash, |s|, c.entry), j);
             d > 0 ==> Used(s[Prev(|s|, j)]) && Probe(hash, s, Prev(|s|, j)) + 1 >= d
    requires forall k :: 0 <= k < |s| && Used(s[k]) ==> s[k].entry.key != c.entry.key
    ensures Probing(hash, s[j := c])
  {
    var t := s[j := c];
    forall i | 0 <= i < |t| ensures Honest(hash, t, i) {
      assert Honest(hash, s, i);
    }
    forall i | 0 <= i < |t| ensures Steps(hash, t, i) {
      assert Steps(hash, s, i);
    }
  }

  /** The cell `m` was pushed out of the table `g` and is carried forward: at bucket `i` it would
      have probe length `probe`, and the bucket there has at least that. */
  ghost predicate Carried<K(!new), V>(hash: K -> nat, g: seq<Cell<K, V>>, m: Cell<K, V>, i: nat, probe: nat) {
    && i < |g| && Probing(hash, g) && Used(g[i]) && Probe(hash, g, i) >= probe
    && m.hash == hash(m.entry.key) && Dist(|g|, Home(hash, |g|, m.entry), i) == probe
    && forall k :: 0 <= k < |g| && Used(g[k]) ==> g[k].entry.key != m.entry.key
  }

  /** A new entry takes the bucket of a richer one, which is then carried. */
  lemma {:induction false} CarryStart<K(!new), V>(hash: K -> nat, s: seq<Cell<K, V>>, q: nat, c: Cell<K, V>)
    requires q < |s| && Probing(hash, s) && Used(s[q])
    requires c.hash == hash(c.entry.key)
    requires c.state == StateFor(Dist(|s|, Home(hash, |s|, c.entry), q))
    requires Probe(hash, s, q) < Dist(|s|, Home(hash, |s|, c.entry), q)
    requires Used(s[Prev(|s|, q)]) && Probe(hash, s, Prev(|s|, q)) + 1 >= Dist(|s|, Home(hash, |s|, c.entry), q)
    requires forall k :: 0 <= k < |s| && Used(s[k]) ==> s[k].entry.key != c.entry.key
    ensures Carried(hash, s[q := c], s[q], q, Probe(hash, s, q))
    ensures Entries(s[q := c]) + {s[q].entry} == Entries(s) + {c.entry} && Honest(hash, s, q)
  {
    Place(hash, s, q, c);
    EntriesUpdate(s, q, c);
    assert Honest(hash, s, q);
  }

  /** The carried cell moves one bucket on; it cannot come round to its home. */
  lemma {:induction false} CarryOn<K(!new), V>(hash: K -> nat, g: seq<Cell<K, V>>, m: Cell<K, V>, i: nat, probe: nat, f: nat)
    requires Carried(hash, g, m, i, probe) && f < |g| && !Used(g[f])
    ensures var n := Next(|g|, i);
            && Dist(|g|, Home(hash, |g|, m.entry), n) == probe + 1
            && Dist(|g|, n, f) == Dist(|g|, i, f) - 1 && Honest(hash, g, n)
            && (Used(g[n]) && Probe(hash, g, n) >= probe + 1 ==> Carried(hash, g, m, n, probe + 1))
  {
    if Next(|g|, i) == Home(hash, |g|, m.entry) {
      OnTheWay(hash, g, i, f);
    }
  }

  lemma {:induction false} CarrySwap<K(!new), V>(hash: K -> nat, g: seq<Cell<K, V>>, m: Cell<K, V>, i: nat, probe: nat, f: nat)
    requires Carried(hash, g, m, i, probe) && f < |g| && !Used(g[f])
    requires var n := Next(|g|, i); Used(g[n]) && Probe(hash, g, n) < probe + 1
    ensures var n := Next(|g|, i);
            var g' := g[n := m.(state := StateFor(probe + 1))];
            && Carried(hash, g', g[n], n, Probe(hash, g, n)) && !Used(g'[f])
            && Entries(g') + {g[n].entry} == Entries(g) + {m.entry}
  {
    var n := Next(|g|, i);
    CarryOn(hash, g, m, i, probe, f);
    Place(hash, g, n, m.(state := StateFor(probe + 1)));
    EntriesUpdate(g, n, m.(state := StateFor(probe + 1)));
    assert Honest(hash, g, n);
  }

  lemma {:induction false} CarryEnd<K(!new), V>(hash: K -> nat, g: seq<Cell<K, V>>, m: Cell<K, V>, i: nat, probe: nat)
    requires Carried(hash, g, m, i, probe)
    requires var n := Next(|g|, i); !Used(g[n])
    ensures var n := Next(|g|, i);
            var g' := g[n := m.(state := StateFor(probe + 1))];
            Probing(hash, g') && Entries(g') == Entries(g) + {m.entry}
  {
    var n := Next(|g|, i);
    CarryOn(hash, g, m, i, probe, n);
    Place(hash, g, n, m.(state := StateFor(probe + 1)));
    EntriesUpdate(g, n, m.(state := StateFor(probe + 1)));
  }

  // ---------- the table as a set of entries ----------

  ghost predicate HasKey<K, V>(c: set<Entry<K, V>>, key: K) {
    exists x :: x in c && x.key == key
  }

  /** The contents after writing an entry over any entry with the same key. */
  ghost function Put<K, V>(c: set<Entry<K, V>>, e: Entry<K, V>): set<Entry<K, V>> {
    (set x | x in c && x.key != e.key) + {e}
  }

  ghost function Replaced<K, V>(s: seq<Entry<K, V>>, e: Entry<K, V>): seq<Entry<K, V>> {
    seq(|s|, i requires 0 <= i < |s| => if s[i].key == e.key then e else s[i])
  }

  /** Assigning an equal value in place keeps the invariant. */
  lemma {:induction false} Overwrite<K(!new), V>(hash: K -> nat, s: seq<Cell<K, V>>, i: nat, e: Entry<K, V>)
    requires i < |s| && Probing(hash, s) && Used(s[i]) && s[i].entry.key == e.key
    ensures Probing(hash, s[i := s[i].(entry := e)])
    ensures Entries(s[i := s[i].(entry := e)]) == Put(Entries(s), e)
    ensures |Put(Entries(s), e)| == |Entries(s)| && HasKey(Entries(s), e.key)
  {
    var t := s[i := s[i].(entry := e)];
    forall k | 0 <= k < |s| ensures Honest(hash, t, k) {
      assert Honest(hash, s, k);
    }
    forall k | 0 <= k < |s| ensures Steps(hash, t, k) {
      assert Steps(hash, s, k);
    }
    EntriesUpdate(s, i, t[i]);
    OneWithKey(s, i);
  }

  /** The entry in bucket `i` is the only one with its key. */
  lemma {:induction false} OneWithKey<K, V>(s: seq<Cell<K, V>>, i: nat)
    requires i < |s| && Unique(s) && Used(s[i])
    ensures s[i].entry in Entries(s)
    ensures (set x | x in Entries(s) && x.key != s[i].entry.key) == Entries(s) - {s[i].entry}
  {
    forall x | x in Entries(s) && x.key == s[i].entry.key ensures x == s[i].entry {
      var k :| 0 <= k < |s| && Used(s[k]) && s[k].entry == x;
    }
  }

  /** Walking over the buckets meets each entry once. */
  lemma {:induction false} PrefixEntries<K, V>(s: seq<Cell<K, V>>, i: nat)
    requires Unique(s) && i < |s|
    ensures !Used(s[i]) ==> Entries(s[..i + 1]) == Entries(s[..i])
    ensures Used(s[i]) ==>
              && !HasKey(Entries(s[..i]), s[i].entry.key)
              && Put(Entries(s[..i]), s[i].entry) == Entries(s[..i + 1])
              && |Entries(s[..i])| + 1 <= |Entries(s)|
  {
    var p, t := s[..i], s[..i + 1];
    assert t == p + [s[i]];
    EntriesSnoc(p, s[i]);
    if Used(s[i]) {
      forall x | x in Entries(p) ensures x.key != s[i].entry.key {
        var k :| 0 <= k < i && Used(p[k]) && p[k].entry == x;
        assert s[k] == p[k];
      }
      forall x | x in Entries(t) ensures x in Entries(s) {
        var k :| 0 <= k < |t| && Used(t[k]) && t[k].entry == x;
        assert s[k] == t[k];
      }
      SubsetSize(Entries(t), Entries(s));
    }
  }

  lemma {:induction false} EntriesSnoc<K, V>(s: seq<Cell<K, V>>, b: Cell<K, V>)
    ensures Entries(s + [b]) == Entries(s) + if Used(b) then {b.entry} else {}
  {
    var t := s + [b];
    forall x | x in Entries(s) ensures x in Entries(t) {
      var k :| 0 <= k < |s| && Used(s[k]) && s[k].entry == x;
      assert t[k] == s[k];
    }
    if Used(b) {
      assert t[|s|].entry in Entries(t);
    }
  }

  lemma {:induction false} SubsetSize<T>(a: set<T>, b: set<T>)
    requires a <= b
    ensures |a| <= |b|
  {
    assert b == a + (b - a);
  }

  // ---------- deletion ----------

  /** A table with a hole at `to` that used to hold an entry with probe length `v`: only the
      bucket behind the hole may have lost its predecessor. */
  ghost predicate Hole<K(!new), V>(hash: K -> nat, s: seq<Cell<K, V>>, to: nat, v: nat)
    requires to < |s|
  {
    var (p, n) := (Prev(|s|, to), Next(|s|, to));
    && !Used(s[to]) && Unique(s)
    && (forall i :: 0 <= i < |s| ==> Honest(hash, s, i))
    && (forall i :: 0 <= i < |s| && i != n ==> Steps(hash, s, i))
    && (v > 0 && |s| > 2 ==> Used(s[p]) && Probe(hash, s, p) + 1 >= v)
    && (Used(s[n]) ==> Probe(hash, s, n) <= v + 1)
  }

  lemma {:induction false} HoleHonest<K(!new), V>(hash: K -> nat, s: seq<Cell<K, V>>, to: nat, v: nat, i: nat)
    requires to < |s| && i < |s| && Hole(hash, s, to, v)
    ensures Honest(hash, s, i)
  {
  }

  function Freed<K, V>(b: Cell<K, V>): Cell<K, V> {
    b.(state := FREE)
  }

  lemma {:induction false} OpenHole<K(!new), V>(hash: K -> nat, s: seq<Cell<K, V>>, i: nat)
    requires i < |s| && Probing(hash, s) && Used(s[i])
    ensures Hole(hash, s[i := Freed(s[i])], i, Probe(hash, s, i))
    ensures Entries(s[i := Freed(s[i])]) == Entries(s) - {s[i].entry}
    ensures s[i].entry in Entries(s)
  {
    var t := s[i := Freed(s[i])];
    EntriesUpdate(s, i, Freed(s[i]));
    forall k | 0 <= k < |t| ensures Honest(hash, t, k) {
      assert Honest(hash, s, k);
    }
    forall k | 0 <= k < |t| ensures k != Next(|t|, i) ==> Steps(hash, t, k) {
      assert Steps(hash, s, k);
    }
    assert Steps(hash, s, i) && Steps(hash, s, Next(|s|, i));
  }

  /** Moving the next entry back into the hole moves the hole forward. */
  lemma {:induction false} ShiftBack<K(!new), V>(hash: K -> nat, s: seq<Cell<K, V>>, to: nat, v: nat, t: seq<Cell<K, V>>)
    requires to < |s| && Hole(hash, s, to, v)
    requires var n := Next(|s|, to);
             && n != to && Used(s[n]) && Probe(hash, s, n) > 0
             && t == s[to := s[n].(state := StateFor(Probe(hash, s, n) - 1))][n := Freed(s[n])]
    ensures var n := Next(|s|, to); Hole(hash, t, n, Probe(hash, s, n))
    ensures Entries(t) == Entries(s)
  {
    var n := Next(|s|, to);
    var d := Probe(hash, s, n);
    ShiftEntries(s, to, n, s[n].(state := StateFor(d - 1)));
    forall k | 0 <= k < |t| ensures Honest(hash, t, k) && (k != Next(|t|, n) ==> Steps(hash, t, k)) {
      ShiftAt(hash, s, to, v, t, k);
    }
    assert Next(|s|, n) != to ==> Steps(hash, s, Next(|s|, n));
  }

  lemma {:induction false} ShiftAt<K(!new), V>(hash: K -> nat, s: seq<Cell<K, V>>, to: nat, v: nat, t: seq<Cell<K, V>>, k: nat)
    requires to < |s| && k < |s| && Hole(hash, s, to, v)
    requires var n := Next(|s|, to);
             && n != to && Used(s[n]) && Probe(hash, s, n) > 0
             && t == s[to := s[n].(state := StateFor(Probe(hash, s, n) - 1))][n := Freed(s[n])]
    ensures Honest(hash, t, k) && (k != Next(|t|, Next(|s|, to)) ==> Steps(hash, t, k))
    ensures Probe(hash, t, to) == Probe(hash, s, Next(|s|, to)) - 1
  {
    var n := Next(|s|, to);
    assert Honest(hash, s, n) && Honest(hash, s, k);
    assert k != n ==> Steps(hash, s, k);
  }

  lemma {:induction false} ShiftEntries<K, V>(s: seq<Cell<K, V>>, to: nat, n: nat, c: Cell<K, V>)
    requires to < |s| && n < |s| && to != n && Unique(s) && !Used(s[to]) && Used(s[n])
    requires c.entry == s[n].entry && Used(c)
    ensures var t := s[to := c][n := Freed(s[n])]; Entries(t) == Entries(s) && Unique(t)
  {
    var t := s[to := c][n := Freed(s[n])];
    forall e | e in Entries(s) ensures e in Entries(t) {
      var k :| 0 <= k < |s| && Used(s[k]) && s[k].entry == e;
      assert t[if k == n then to else k].entry == e;
    }
    forall e | e in Entries(t) ensures e in Entries(s) {
      var k :| 0 <= k < |t| && Used(t[k]) && t[k].entry == e;
      assert s[if k == to then n else k].entry == e;
    }
  }

  /** When the next bucket is free or at home, the hole is an ordinary free bucket. */
  lemma {:induction false} CloseHole<K(!new), V>(hash: K -> nat, s: seq<Cell<K, V>>, to: nat, v: nat)
    requires to < |s| && Hole(hash, s, to, v)
    requires var n := Next(|s|, to); !Used(s[n]) || Probe(hash, s, n) == 0
    ensures Probing(hash, s)
  {
    forall i | 0 <= i < |s| ensures Steps(hash, s, i) {
    }
  }

  /** Behind the hole the entries moved back by one bucket; beyond it nothing changed yet. */
  ghost predicate ShiftedFrom<K, V>(s0: seq<Cell<K, V>>, s: seq<Cell<K, V>>, p: nat, to: nat)
    requires |s| == |s0| && p < |s| && to < |s|
  {
    forall k: nat :: k < |s| ==>
      && (Dist(|s|, p, k) < Dist(|s|, p, to) ==>
            Used(s[k]) && Used(s0[Next(|s|, k)]) && s[k].entry == s0[Next(|s|, k)].entry)
      && (Dist(|s|, p, k) > Dist(|s|, p, to) ==> s[k] == s0[k])
  }

  lemma {:induction false} ShiftOne<K, V>(s0: seq<Cell<K, V>>, s: seq<Cell<K, V>>, p: nat, to: nat, f: nat, t: seq<Cell<K, V>>)
    requires |s| == |s0| == |t| && p < |s| && to < |s| && f < |s| && f != to && ShiftedFrom(s0, s, p, to)
    requires Dist(|s|, p, to) + Dist(|s|, to, f) == Dist(|s|, p, f)
    requires var n := Next(|s|, to); Used(s[n]) && t[to].entry == s[n].entry && Used(t[to])
    requires forall k :: 0 <= k < |s| && k != to ==> t[k] == s[k]
    ensures ShiftedFrom(s0, t, p, Next(|s|, to))
    ensures Dist(|s|, p, Next(|s|, to)) == Dist(|s|, p, to) + 1
    ensures Dist(|s|, Next(|s|, to), f) == Dist(|s|, to, f) - 1
  {
    var n := Next(|s|, to);
    assert Dist(|s|, p, n) > Dist(|s|, p, to) && s[n] == s0[n];
  }

  ghost predicate HeldBefore<K, V>(s: seq<Cell<K, V>>, p: nat, e: Entry<K, V>)
    requires p <= |s|
  {
    exists j :: 0 <= j < p && Used(s[j]) && s[j].entry == e
  }

  /** Entries in front of the emptied bucket were in front of it before, even when the shift wrapped. */
  lemma {:induction false} StillInFront<K, V>(s0: seq<Cell<K, V>>, s: seq<Cell<K, V>>, p: nat, to: nat, k: nat)
    requires |s| == |s0| && p < |s| && to < |s| && ShiftedFrom(s0, s, p, to) && k < p && k != to && Used(s[k])
    ensures HeldBefore(s0, p, s[k].entry)
  {
    if Dist(|s|, p, k) < Dist(|s|, p, to) {
      assert Used(s0[k + 1]) && s0[k + 1].entry == s[k].entry && k + 1 < p;
    } else {
      assert s[k] == s0[k];
    }
  }
}
