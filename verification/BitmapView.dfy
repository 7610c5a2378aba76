/** `AK/BitmapView.h`: finding the first run of unset bits, a word at a time. */
module BitmapView {
  import opened Common
  import opened Words
  import opened Bits

  const WORD_BITS: nat := 64

  // ---------- the specification: bit by bit ----------

  ghost predicate Unset(data: seq<nat>, i: nat) {
    i / 8 < |data| && !Bit(data[i / 8], i % 8)
  }

  /** `n` unset bits in a row from `s` on. */
  ghost predicate RunAt(data: seq<nat>, size: nat, s: nat, n: nat) {
    s + n <= size && forall k :: s <= k < s + n ==> Unset(data, k)
  }

  /** The leftmost run of at least `n` unset bits that starts at `lo` or later, or nothing when there is none. */
  ghost predicate FirstFit(data: seq<nat>, size: nat, lo: nat, n: nat, r: Option<nat>) {
    match r
    case None => forall s: nat :: lo <= s ==> !RunAt(data, size, s, n)
    case Some(k) => lo <= k && RunAt(data, size, k, n) && forall s: nat :: lo <= s < k ==> !RunAt(data, size, s, n)
  }

  /** Where the search stops measuring a run: at the greatest length wanted, at a set bit, at the end of the whole
      words, or, behind those, as soon as the run is long enough. */
  ghost predicate Measured(data: seq<nat>, size: nat, from: nat, length: nat, minLength: nat, maxLength: nat) {
    || length == maxLength
    || (from + length < size && !Unset(data, from + length))
    || from + length == size / WORD_BITS * WORD_BITS
    || (from + length > size / WORD_BITS * WORD_BITS && length == minLength)
  }

  // ---------- the scan ----------

  /** From `lo` up to `pos`: the last `free` bits are unset, and no run of `n` starts before those. */
  ghost predicate Scanned(data: seq<nat>, size: nat, lo: nat, n: nat, pos: nat, free: nat, start: nat) {
    && lo + free <= pos <= size
    && (forall k :: pos - free <= k < pos ==> Unset(data, k))
    && (free > 0 ==> start == pos - free)
    && forall s: nat :: lo <= s && RunAt(data, size, s, n) ==> s >= pos - free
  }

  ghost predicate AllSet(data: seq<nat>, lo: nat, hi: nat) {
    forall k :: lo <= k < hi ==> !Unset(data, k)
  }

  ghost predicate AllUnset(data: seq<nat>, lo: nat, hi: nat) {
    forall k :: lo <= k < hi ==> Unset(data, k)
  }

  lemma {:induction false} PassSet(data: seq<nat>, size: nat, lo: nat, n: nat, pos: nat, free: nat, start: nat, m: nat, start': nat)
    requires Scanned(data, size, lo, n, pos, free, start) && free < n && pos + m <= size && m >= 1
    requires AllSet(data, pos, pos + m)
    ensures Scanned(data, size, lo, n, pos + m, 0, start')
  {
    forall s: nat | lo <= s < pos + m
      ensures !RunAt(data, size, s, n)
    {
      assert !Unset(data, if s < pos then pos else s);
    }
  }

  lemma {:induction false} PassUnset(data: seq<nat>, size: nat, lo: nat, n: nat, pos: nat, free: nat, start: nat, m: nat)
    requires Scanned(data, size, lo, n, pos, free, start) && pos + m <= size
    requires AllUnset(data, pos, pos + m)
    ensures Scanned(data, size, lo, n, pos + m, free + m, if free == 0 then pos else start)
  {
  }

  lemma {:induction false} LongEnough(data: seq<nat>, size: nat, lo: nat, n: nat, pos: nat, free: nat, start: nat, r: nat)
    requires Scanned(data, size, lo, n, pos, free, start) && n <= r <= free && (free == 0 ==> start == pos)
    ensures RunAt(data, size, start, r) && FirstFit(data, size, lo, n, Some(start))
  {
    assert RunAt(data, size, start, n);
  }

  lemma {:induction false} NothingLeft(data: seq<nat>, size: nat, lo: nat, n: nat, free: nat, start: nat)
    requires Scanned(data, size, lo, n, size, free, start) && free < n
    ensures FirstFit(data, size, lo, n, None)
  {
  }

  // ---------- bits of a word ----------

  lemma {:induction false} BitShifted(x: nat, v: nat, k: nat)
    ensures Bit(Quot(x, Pow2(v)), k) <==> Bit(x, v + k)
  {
    hide Bit;
    if v == 0 {
      Pow2Zero();
    } else {
      BitStep(x, v + k);
      BitShifted(x / 2, v - 1, k);
      QuotHalved(x, Pow2(v - 1));
    }
  }

  lemma {:induction false} QuotHalved(x: nat, q: nat)
    requires q >= 1
    ensures Quot(x, 2 * q) == Quot(x / 2, q)
  {
    QuotRem(x / 2, q);
    var a, r := Quot(x / 2, q), Rem(x / 2, q);
    assert x == a * (2 * q) + (2 * r + x % 2);
    DivModUnique(x, 2 * q, a, 2 * r + x % 2);
  }

  /** A low part and a high part side by side. */
  lemma {:induction false} BitConcat(x: nat, y: nat, w: nat, k: nat)
    requires x < Pow2(w)
    ensures Bit(x + Pow2(w) * y, k) <==> if k < w then Bit(x, k) else Bit(y, k - w)
    decreases w
  {
    hide Bit;
    if w > 0 {
      var z := x + Pow2(w) * y;
      assert z == x + 2 * (Pow2(w - 1) * y);
      assert z / 2 == x / 2 + Pow2(w - 1) * y && z % 2 == x % 2;
      if k == 0 {
        BitZero(z);
        BitZero(x);
      } else {
        BitStep(z, k);
        BitStep(x, k);
        BitConcat(x / 2, y, w - 1, k - 1);
      }
    }
  }

  /** Bit `8 a + b` of a little-endian number is bit `b` of its byte `a`. */
  lemma {:induction false} BitOfBytes(s: seq<nat>, a: nat, b: nat)
    requires Digits(256, s) && a < |s| && b < 8
    ensures Bit(Val(256, s), 8 * a + b) <==> Bit(s[a], b)
  {
    hide Bit, Val;
    var tail := s[1..];
    assert s == [s[0]] + tail;
    ValCons(256, s[0], tail);
    ByteValue();
    BitConcat(s[0], Val(256, tail), 8, 8 * a + b);
    if a > 0 {
      BitOfBytes(tail, a - 1, b);
    }
  }

  /** `bitmap[k]` on a little-endian host. */
  function Word(data: seq<nat>, k: nat): nat
    requires 8 * k + 8 <= |data|
  {
    Val(256, data[8 * k..8 * k + 8])
  }

  lemma {:induction false} WordBit(data: seq<nat>, k: nat, i: nat)
    requires Digits(256, data) && 8 * k + 8 <= |data| && i < WORD_BITS
    ensures Unset(data, WORD_BITS * k + i) <==> !Bit(Word(data, k), i)
  {
    hide Bit;
    var s := data[8 * k..8 * k + 8];
    BitOfBytes(s, i / 8, i % 8);
    var p := WORD_BITS * k + i;
    assert p / 8 == 8 * k + i / 8 && p % 8 == i % 8;
    assert s[i / 8] == data[p / 8];
  }

  function CountTrailingZeroes(x: nat): (r: nat)
    requires x > 0
  {
    if x % 2 == 1 then 0 else 1 + CountTrailingZeroes(x / 2)
  }

  lemma {:induction false} CtzMeans(x: nat, k: nat)
    requires x > 0
    ensures k < CountTrailingZeroes(x) ==> !Bit(x, k)
    ensures k == CountTrailingZeroes(x) ==> Bit(x, k)
    decreases k
  {
    hide Bit;
    if k == 0 {
      BitZero(x);
    } else {
      BitStep(x, k);
      if x % 2 == 0 {
        CtzMeans(x / 2, k - 1);
      }
    }
  }

  lemma {:induction false} BitBelow(x: nat, w: nat, k: nat)
    requires x < Pow2(w) && Bit(x, k)
    ensures k < w
  {
    DivModUnique(x, Pow2(w), 0, x);
    BitMod(x, w, k);
  }

  lemma {:induction false} WordBelow(data: seq<nat>, k: nat)
    requires Digits(256, data) && 8 * k + 8 <= |data|
    ensures Word(data, k) < Pow2(WORD_BITS)
  {
    hide Val, Pow2, Pow;
    ValBound(256, data[8 * k..8 * k + 8]);
    ByteValue();
    PowOfPow2(8, 8);
  }

  lemma {:induction false} FullWord(data: seq<nat>, k: nat)
    requires Digits(256, data) && 8 * k + 8 <= |data| && Word(data, k) == Not(WORD_BITS, 0)
    ensures AllSet(data, WORD_BITS * k, WORD_BITS * k + WORD_BITS)
  {
    hide Bit, Unset, Word;
    var lo, hi := WORD_BITS * k, WORD_BITS * k + WORD_BITS;
    forall p | lo <= p < hi
      ensures !Unset(data, p)
    {
      var i := p - lo;
      WordBit(data, k, i);
      BitNot(WORD_BITS, 0, i);
      BitOfZero(i);
    }
  }

  /** The rest of a word that has no more set bits. */
  lemma {:induction false} EmptyRest(data: seq<nat>, k: nat, v: nat)
    requires Digits(256, data) && 8 * k + 8 <= |data| && v <= WORD_BITS && Quot(Word(data, k), Pow2(v)) == 0
    ensures AllUnset(data, WORD_BITS * k + v, WORD_BITS * k + WORD_BITS)
  {
    hide Bit, Unset, Word, Quot;
    var lo, hi := WORD_BITS * k + v, WORD_BITS * k + WORD_BITS;
    forall p | lo <= p < hi
      ensures Unset(data, p)
    {
      var i := p - lo;
      WordBit(data, k, v + i);
      BitShifted(Word(data, k), v, i);
      BitOfZero(i);
    }
  }

  lemma {:induction false} ZeroesAhead(data: seq<nat>, k: nat, v: nat)
    requires Digits(256, data) && 8 * k + 8 <= |data| && v <= WORD_BITS && Quot(Word(data, k), Pow2(v)) > 0
    ensures var t := CountTrailingZeroes(Quot(Word(data, k), Pow2(v)));
            v + t < WORD_BITS && AllUnset(data, WORD_BITS * k + v, WORD_BITS * k + v + t)
  {
    hide Bit, Unset, Word, Quot, CountTrailingZeroes;
    var word := Word(data, k);
    var x := Quot(word, Pow2(v));
    var t := CountTrailingZeroes(x);
    CtzMeans(x, t);
    BitShifted(word, v, t);
    WordBelow(data, k);
    BitBelow(word, WORD_BITS, v + t);
    var lo := WORD_BITS * k + v;
    forall p | lo <= p < lo + t
      ensures Unset(data, p)
    {
      CtzMeans(x, p - lo);
      BitShifted(word, v, p - lo);
      WordBit(data, k, v + (p - lo));
    }
  }

  /** Shifting the zeroes out leaves an odd number. */
  lemma {:induction false} ShiftTwice(x: nat, v: nat, t: nat)
    ensures Quot(Quot(x, Pow2(v)), Pow2(t)) == Quot(x, Pow2(v + t))
  {
    hide Pow2;
    var p, q := Pow2(v), Pow2(t);
    Pow2Add(v, t);
    QuotRem(x, p);
    QuotRem(Quot(x, p), q);
    var a, r := Quot(x, p), Rem(x, p);
    var b, s := Quot(a, q), Rem(a, q);
    assert (b * q + s) * p + r == b * (p * q) + (s * p + r) by {
      Distribute(b * q, s, p);
      Assoc(b, q, p);
    }
    MulLe(s + 1, q, p);
    Distribute(s, 1, p);
    DivModUnique(x, p * q, b, s * p + r);
  }

  lemma {:induction false} OnesAhead(data: seq<nat>, k: nat, v: nat)
    requires Digits(256, data) && 8 * k + 8 <= |data| && v < WORD_BITS
    requires Word(data, k) != Not(WORD_BITS, 0) && Bit(Word(data, k), v)
    ensures var x := Quot(Word(data, k), Pow2(v)); x < Not(WORD_BITS, 0) < Pow2(WORD_BITS)
    ensures var o := CountTrailingZeroes(Not(WORD_BITS, Quot(Word(data, k), Pow2(v))));
            1 <= o && v + o <= WORD_BITS && AllSet(data, WORD_BITS * k + v, WORD_BITS * k + v + o)
  {
    hide Bit, Unset, Word, Quot, CountTrailingZeroes;
    var word := Word(data, k);
    var x := Quot(word, Pow2(v));
    WordBelow(data, k);
    ShiftedNotFull(word, v);
    var y := Not(WORD_BITS, x);
    var o := CountTrailingZeroes(y);
    CtzMeans(y, o);
    BitBelow(y, WORD_BITS, o);
    BitShifted(word, v, 0);
    BitNot(WORD_BITS, x, 0);
    var lo := WORD_BITS * k + v;
    assert o >= 1;
    OneAt(word, v, o - 1);
    forall p | lo <= p < lo + o
      ensures !Unset(data, p)
    {
      OneAt(word, v, p - lo);
      WordBit(data, k, v + (p - lo));
    }
  }

  lemma {:induction false} OneAt(word: nat, v: nat, i: nat)
    requires word < Pow2(WORD_BITS) && Quot(word, Pow2(v)) < Not(WORD_BITS, 0) < Pow2(WORD_BITS)
    requires i < CountTrailingZeroes(Not(WORD_BITS, Quot(word, Pow2(v)))) && i < WORD_BITS
    ensures Bit(word, v + i) && v + i < WORD_BITS
  {
    hide Bit, Quot, CountTrailingZeroes;
    var x := Quot(word, Pow2(v));
    CtzMeans(Not(WORD_BITS, x), i);
    BitNot(WORD_BITS, x, i);
    BitShifted(word, v, i);
    BitBelow(word, WORD_BITS, v + i);
  }

  lemma {:induction false} ShiftedNotFull(word: nat, v: nat)
    requires word < Pow2(WORD_BITS) && word != Not(WORD_BITS, 0)
    ensures Quot(word, Pow2(v)) < Not(WORD_BITS, 0) < Pow2(WORD_BITS)
  {
    hide Pow2;
    QuotRem(word, Pow2(v));
    MulLe(1, Pow2(v), Quot(word, Pow2(v)));
  }

  // ---------- the word-at-a-time search ----------

  ghost predicate View(data: seq<nat>, size: nat) {
    Digits(256, data) && size <= 8 * |data|
  }

  /** The inner loop: a word that is neither full nor empty. True when a run of `n` ends in it. */
  method ScanBucket(data: seq<nat>, size: nat, ghost lo: nat, n: nat, k: nat, bit: nat, free0: nat, start0: nat)
    returns (found: bool, free: nat, start: nat)
    requires View(data, size) && WORD_BITS * (k + 1) <= size && Word(data, k) != Not(WORD_BITS, 0) && Word(data, k) != 0
    requires bit < WORD_BITS && Scanned(data, size, lo, n, WORD_BITS * k + bit, free0, start0)
    ensures found ==> n <= free && RunAt(data, size, start, free) && FirstFit(data, size, lo, n, Some(start))
    ensures found ==> start + free < size && !Unset(data, start + free)
    ensures !found ==> Scanned(data, size, lo, n, WORD_BITS * (k + 1), free, start) && (n == 0 ==> free > 0)
  {
    hide Scanned, RunAt, FirstFit, AllSet, AllUnset, Unset, Word, Bit, Quot, Pow2, CountTrailingZeroes;
    free, start := free0, start0;
    var bucket := Quot(Word(data, k), Pow2(bit));
    var viewed: nat := bit;
    while viewed < WORD_BITS
      invariant viewed <= WORD_BITS && bucket == Quot(Word(data, k), Pow2(viewed))
      invariant Scanned(data, size, lo, n, WORD_BITS * k + viewed, free, start)
      invariant n == 0 ==> viewed < WORD_BITS || free > 0
    {
      ghost var pos := WORD_BITS * k + viewed;
      if bucket == 0 {
        EmptyRest(data, k, viewed);
        PassUnset(data, size, lo, n, pos, free, start, WORD_BITS - viewed);
        ShiftedOut(Word(data, k), viewed);
        if free == 0 {
          start := WORD_BITS * k + viewed;
        }
        free := free + (WORD_BITS - viewed);
        viewed := WORD_BITS;
      } else {
        var zeroes := CountTrailingZeroes(bucket);
        ZeroesAhead(data, k, viewed);
        PassUnset(data, size, lo, n, pos, free, start, zeroes);
        ShiftTwice(Word(data, k), viewed, zeroes);
        CtzMeans(bucket, zeroes);
        BitShifted(Word(data, k), viewed, zeroes);
        bucket := Quot(bucket, Pow2(zeroes));
        if free == 0 {
          start := WORD_BITS * k + viewed;
        }
        free := free + zeroes;
        viewed := viewed + zeroes;
        if free >= n {
          LongEnoughHere(data, size, lo, n, WORD_BITS * k + viewed, free, start);
          WordBit(data, k, viewed);
          return true, free, start;
        }
        OnesAhead(data, k, viewed);
        var ones := CountTrailingZeroes(Not(WORD_BITS, bucket));
        PassSet(data, size, lo, n, WORD_BITS * k + viewed, free, start, ones, start);
        ShiftTwice(Word(data, k), viewed, ones);
        bucket := Quot(bucket, Pow2(ones));
        viewed := viewed + ones;
        free := 0;
      }
    }
    found := false;
  }

  lemma {:induction false} NoShift(x: nat)
    ensures Quot(x, Pow2(0)) == x
  {
    Pow2Zero();
  }

  lemma {:induction false} ShiftedOut(x: nat, v: nat)
    requires v <= WORD_BITS && Quot(x, Pow2(v)) == 0
    ensures Quot(x, Pow2(WORD_BITS)) == 0
  {
    hide Pow2;
    QuotRem(x, Pow2(v));
    Pow2Monotone(v, WORD_BITS);
    DivModUnique(x, Pow2(WORD_BITS), 0, x);
  }

  /** `start` is up to date whenever the run is measured. */
  lemma {:induction false} LongEnoughHere(data: seq<nat>, size: nat, lo: nat, n: nat, pos: nat, free: nat, start: nat)
    requires Scanned(data, size, lo, n, pos, free, start) && n <= free && (free == 0 ==> start == pos)
    ensures RunAt(data, size, start, free) && FirstFit(data, size, lo, n, Some(start)) && start + free == pos
  {
    LongEnough(data, size, lo, n, pos, free, start, free);
  }

  method Get(data: seq<nat>, size: nat, index: nat) returns (bit: bool)
    requires View(data, size) && index < size
    ensures bit <==> !Unset(data, index)
  {
    AndPow2(data[index / 8], index % 8);
    bit := 0 != And(data[index / 8], Pow2(index % 8));
  }

  /** The bits after the last whole word, one at a time. */
  method ScanTrailing(data: seq<nat>, size: nat, ghost lo: nat, n: nat, free0: nat, start0: nat) returns (found: bool, free: nat, start: nat)
    requires View(data, size) && free0 < n && Scanned(data, size, lo, n, size / WORD_BITS * WORD_BITS, free0, start0)
    ensures found ==> free == n && RunAt(data, size, start, free) && FirstFit(data, size, lo, n, Some(start))
    ensures found ==> start + free > size / WORD_BITS * WORD_BITS
    ensures !found ==> FirstFit(data, size, lo, n, None)
  {
    hide Scanned, RunAt, FirstFit, Unset, View, Bit;
    free, start := free0, start0;
    var first: nat := size / WORD_BITS * WORD_BITS;
    var trailing := size % WORD_BITS;
    for i := 0 to trailing
      invariant Scanned(data, size, lo, n, first + i, free, start) && free < n
    {
      var bit := Get(data, size, first + i);
      if !bit {
        PassUnset(data, size, lo, n, first + i, free, start, 1);
        if free == 0 {
          start := first + i;
        }
        free := free + 1;
        if free >= n {
          LongEnoughHere(data, size, lo, n, first + i + 1, free, start);
          return true, free, start;
        }
      } else {
        PassSet(data, size, lo, n, first + i, free, start, 1, start);
        free := 0;
      }
    }
    NothingLeft(data, size, lo, n, free, start);
    found := false;
  }

  /** A search that starts early finds what was asked for exactly when nothing fits before the given bit. */
  lemma {:induction false} StartHonoured(data: seq<nat>, size: nat, lo: nat, from: nat, n: nat, r: Option<nat>)
    requires lo <= from && FirstFit(data, size, lo, n, r)
    ensures FirstFit(data, size, from, n, r) <==> forall s: nat :: lo <= s < from ==> !RunAt(data, size, s, n)
  {
    hide RunAt;
  }

  /** What the search finds, from `lo` on. */
  ghost predicate Found(data: seq<nat>, size: nat, lo: nat, minLength: nat, maxLength: nat, r: Option<nat>, from: nat) {
    && FirstFit(data, size, lo, minLength, if r.None? then None else Some(from))
    && (r.Some? ==> minLength <= r.value <= maxLength && RunAt(data, size, from, r.value))
    && (r.Some? ==> Measured(data, size, from, r.value, minLength, maxLength))
  }

  lemma {:induction false} EmptyWordMeans(data: seq<nat>, k: nat)
    requires Digits(256, data) && 8 * k + 8 <= |data|
    ensures Word(data, k) == 0 <==> AllUnset(data, WORD_BITS * k, WORD_BITS * (k + 1))
  {
    hide Word, Bit, Unset;
    NoShift(0);
    NoShift(Word(data, k));
    if Word(data, k) == 0 {
      EmptyRest(data, k, 0);
    } else {
      var t := CountTrailingZeroes(Word(data, k));
      ZeroesAhead(data, k, 0);
      CtzMeans(Word(data, k), t);
      WordBit(data, k, t);
    }
  }

  /** The search. `from` is the start of the run that was found, and the result its length. From a word that is not
      empty it starts where it is told, from an empty one at its first bit, and from behind all whole words at their
      end. Asked for no bits, it finds them even behind the end of the view. */
  method FindNextRangeOfUnsetBits(data: seq<nat>, size: nat, from0: nat, minLength: nat, maxLength: nat)
    returns (r: Option<nat>, from: nat)
    requires View(data, size)
    ensures minLength > maxLength ==> r == None
    ensures var (k, whole) := (from0 / WORD_BITS, size / WORD_BITS);
            minLength <= maxLength ==>
              if k >= whole then
                if minLength == 0 then r == Some(0) && from == from0
                else Found(data, size, whole * WORD_BITS, minLength, maxLength, r, from)
              else if AllUnset(data, WORD_BITS * k, WORD_BITS * (k + 1)) then
                Found(data, size, WORD_BITS * k, minLength, maxLength, r, from)
              else Found(data, size, from0, minLength, maxLength, r, from)
  {
    hide Scanned, FirstFit, Word, Pow2, RunAt, Unset, AllUnset;
    from := from0;
    if minLength > maxLength {
      return None, from;
    }
    var k, bit := from0 / WORD_BITS, from0 % WORD_BITS;
    ghost var first, whole := k, size / WORD_BITS;
    ghost var lo := if first >= whole then whole * WORD_BITS else if Word(data, first) == 0 then WORD_BITS * first else from0;
    ghost var searches := first < whole || minLength > 0;
    if first < whole {
      EmptyWordMeans(data, first);
    }
    var free: nat := 0;
    FullIsNotEmpty();
    NothingScanned(data, size, lo, minLength, from0);
    while k < size / WORD_BITS
      invariant first <= k && (k > first ==> k <= whole && bit == 0)
      invariant k == first ==> bit == from0 % WORD_BITS && free == 0 && from == from0
      invariant Scanned(data, size, lo, minLength, if k == first then lo else WORD_BITS * k, free, from)
      invariant minLength == 0 && free == 0 ==> k == first
    {
      var word := Word(data, k);
      ghost var pos := if k == first then lo else WORD_BITS * k;
      if word == Not(WORD_BITS, 0) {
        FullWord(data, k);
        if free >= minLength {
          LongEnoughHere(data, size, lo, minLength, pos, free, from);
          Enough(data, size, lo, minLength, maxLength, free, from);
          return Some(Min(free, maxLength)), from;
        }
        PassSet(data, size, lo, minLength, pos, free, from, WORD_BITS * (k + 1) - pos, from);
        free := 0;
      } else if word == 0 {
        NoShift(word);
        EmptyRest(data, k, 0);
        PassUnset(data, size, lo, minLength, pos, free, from, WORD_BITS);
        if free == 0 {
          from := k * WORD_BITS;
        }
        free := free + WORD_BITS;
        if free >= maxLength {
          LongEnoughHere(data, size, lo, minLength, WORD_BITS * (k + 1), free, from);
          Enough(data, size, lo, minLength, maxLength, free, from);
          return Some(maxLength), from;
        }
      } else {
        var found;
        found, free, from := ScanBucket(data, size, lo, minLength, k, bit, free, from);
        if found {
          Enough(data, size, lo, minLength, maxLength, free, from);
          return Some(Min(free, maxLength)), from;
        }
      }
      bit := 0;
      k := k + 1;
    }
    if free < minLength {
      var found;
      found, free, from := ScanTrailing(data, size, lo, minLength, free, from);
      if found {
        Enough(data, size, lo, minLength, maxLength, free, from);
        return Some(Min(free, maxLength)), from;
      }
      return None, from;
    }
    if searches {
      LongEnoughHere(data, size, lo, minLength, WORD_BITS * k, free, from);
      Enough(data, size, lo, minLength, maxLength, free, from);
    }
    return Some(Min(free, maxLength)), from;
  }

  /** A run that is long enough, cut at the greatest length wanted. */
  lemma {:induction false} Enough(data: seq<nat>, size: nat, lo: nat, minLength: nat, maxLength: nat, free: nat, from: nat)
    requires minLength <= free && minLength <= maxLength
    requires RunAt(data, size, from, free) && FirstFit(data, size, lo, minLength, Some(from))
    requires free >= maxLength || Measured(data, size, from, free, minLength, maxLength)
    ensures Found(data, size, lo, minLength, maxLength, Some(Min(free, maxLength)), from)
  {
    hide FirstFit;
    Shorter(data, size, from, free, Min(free, maxLength));
  }

  lemma {:induction false} FullIsNotEmpty()
    ensures Not(WORD_BITS, 0) != 0
  {
    assert Pow2(1) == 2 * Pow2(0);
    Pow2Monotone(1, WORD_BITS);
  }

  lemma {:induction false} NothingScanned(data: seq<nat>, size: nat, lo: nat, n: nat, start: nat)
    requires lo <= size
    ensures Scanned(data, size, lo, n, lo, 0, start)
  {
  }

  lemma {:induction false} Shorter(data: seq<nat>, size: nat, s: nat, n: nat, m: nat)
    requires RunAt(data, size, s, n) && m <= n
    ensures RunAt(data, size, s, m)
  {
  }

  /** The leftmost run of at least `minimumLength` unset bits, the same as a scan bit by bit finds. */
  method FindFirstFit(data: seq<nat>, size: nat, minimumLength: nat) returns (r: Option<nat>)
    requires View(data, size)
    ensures FirstFit(data, size, 0, minimumLength, r)
  {
    var length, start := FindNextRangeOfUnsetBits(data, size, 0, minimumLength, minimumLength);
    if length.Some? {
      return Some(start);
    }
    return None;
  }

  /** In an empty word, a search from its tenth bit on finds its first. */
  method EarlierThanAsked(data: seq<nat>) returns (from: nat)
    requires View(data, WORD_BITS) && Word(data, 0) == 0
    ensures from == 0 && RunAt(data, WORD_BITS, from, 1)
  {
    NoShift(0);
    EmptyRest(data, 0, 0);
    hide Word, Pow2;
    assert RunAt(data, WORD_BITS, 0, 1);
    var length;
    length, from := FindNextRangeOfUnsetBits(data, WORD_BITS, 10, 1, 1);
  }
}
