/** `AK/BigIntBase.h`: shifting a whole storage. */
module BigIntShift {
  import opened Words
  import opened Bits

  // ---------- words and powers of two ----------

  lemma {:induction false} SplitShift(w: nat, shift: nat)
    requires w >= 1
    ensures Pow2(shift) == Pow2(shift % w) * Pow(Pow2(w), shift / w)
  {
    PowOfPow2(w, shift / w);
    Pow2Add(shift % w, w * (shift / w));
    assert shift == shift % w + w * (shift / w);
  }

  lemma {:induction false} QuotientBelow(x: nat, q: nat, m: nat)
    requires q >= 1 && x < m * q
    ensures x / q < m
  {
    if x / q >= m {
      MulLe(m, x / q, q);
      assert false;
    }
  }

  /** A left shift inside a word of `b = q * m` values keeps the low part and hands the high part on. */
  lemma {:induction false} LeftParts(b: nat, m: nat, q: nat, x: nat)
    requires m >= 1 && q >= 1 && b == q * m
    ensures ShlLow(b, m, x) == (x % q) * m
    ensures x * m == ShlHigh(q, x) * b + ShlLow(b, m, x)
    ensures ShlLow(b, m, x) + m <= b
  {
    ScaledDown(x, m, q);
    var r := x % q;
    LeftRoom(r, q, m);
    assert x * m == ((x * m) / b) * b + (x * m) % b;
  }

  lemma {:induction false} LeftRoom(r: nat, q: nat, m: nat)
    requires r < q
    ensures r * m + m <= q * m
  {
    MulLe(r + 1, q, m);
    Distribute(r, 1, m);
  }

  // ---------- left ----------

  /** `x << k` cut to a word, for `m = 2^k`. */
  function ShlLow(b: nat, m: nat, x: nat): nat
    requires b >= 1
  {
    (x * m) % b
  }

  /** The bits of `x` above place `w - k`, for `q = 2^(w - k)`. */
  function ShlHigh(q: nat, x: nat): nat
    requires q >= 1
  {
    x / q
  }

  ghost predicate Cut(w: nat, k: nat, b: nat, m: nat, q: nat) {
    k <= w && b == Pow2(w) && m == Pow2(k) && q == Pow2(w - k)
  }

  lemma {:induction false} CutFacts(w: nat, k: nat, b: nat, m: nat, q: nat)
    requires Cut(w, k, b, m, q)
    ensures b == q * m && m >= 1 && q >= 1
  {
    Pow2Add(w - k, k);
  }

  /** The word that a shift by less than a word leaves in a place. */
  lemma {:induction false} JoinLeft(w: nat, k: nat, b: nat, m: nat, q: nat, x: nat, y: nat)
    requires Cut(w, k, b, m, q) && y < b
    ensures b >= 1 && q >= 1
    ensures Or(ShlLow(b, m, x), ShlHigh(q, y)) == ShlLow(b, m, x) + ShlHigh(q, y) < b
  {
    CutFacts(w, k, b, m, q);
    LeftParts(b, m, q, x);
    QuotientBelow(y, q, m);
    OrDisjoint(x % q, k, ShlHigh(q, y));
  }

  ghost predicate ShiftedLeft(b: nat, m: nat, q: nat, s: seq<nat>, r: seq<nat>)
    requires b >= 1 && q >= 1
  {
    |r| == |s| && forall i :: 0 <= i < |r| ==>
      r[i] == ShlLow(b, m, s[i]) + (if i == 0 then 0 else ShlHigh(q, s[i - 1]))
  }

  /** What the words below place `i` become, and what they hand on. */
  lemma {:induction false} ShiftedLeftVal(b: nat, m: nat, q: nat, s: seq<nat>, r: seq<nat>, i: nat)
    requires m >= 1 && q >= 1 && b == q * m && ShiftedLeft(b, m, q, s, r) && i <= |s|
    ensures Val(b, r[..i]) + (if i == 0 then 0 else ShlHigh(q, s[i - 1])) * Pow(b, i)
         == Val(b, s[..i]) * m
  {
    hide Val, ShlLow, ShlHigh;
    if i == 0 {
      assert r[..0] == [] && s[..0] == [];
      ValZero(b, []);
    } else {
      ShiftedLeftVal(b, m, q, s, r, i - 1);
      var p := Pow(b, i - 1);
      var low, high := ShlLow(b, m, s[i - 1]), ShlHigh(q, s[i - 1]);
      var was := if i == 1 then 0 else ShlHigh(q, s[i - 2]);
      ValStep(b, r, i - 1);
      ValStep(b, s, i - 1);
      LeftParts(b, m, q, s[i - 1]);
      ShiftStep(p, b, m, s[i - 1], low, high, was);
      Distribute(Val(b, s[..i - 1]), s[i - 1] * p, m);
    }
  }

  lemma {:induction false} ShiftStep(p: nat, b: nat, m: nat, x: nat, low: nat, high: nat, was: nat)
    requires x * m == high * b + low
    ensures (low + was) * p + high * (p * b) == was * p + (x * p) * m
  {
    calc {
      (low + was) * p + high * (p * b);
    ==  { Distribute(low, was, p); Assoc(high, b, p); }
      low * p + was * p + (high * b) * p;
    ==  { Distribute(high * b, low, p); }
      was * p + (x * m) * p;
    ==  { Assoc(x, m, p); Assoc(x, p, m); }
      was * p + (x * p) * m;
    }
  }

  /** Words moved up by `offset` places over zeroes. */
  lemma {:induction false} MovedUp(b: nat, m: nat, q: nat, s: seq<nat>, offset: nat, r: seq<nat>)
    requires m >= 1 && q >= 1 && b == q * m && offset <= |s| && |r| == |s| && Digits(b, r)
    requires forall i :: 0 <= i < offset ==> r[i] == 0
    requires ShiftedLeft(b, m, q, s[..|s| - offset], r[offset..])
    ensures Val(b, r) == (Val(b, s) * (m * Pow(b, offset))) % Pow(b, |s|)
  {
    hide Val, Pow, ShlHigh;
    var n := |s| - offset;
    var kept, up := s[..n], r[offset..];
    var o, p := Pow(b, offset), Pow(b, n);
    ValSplit(b, r, offset);
    ValZero(b, r[..offset]);
    ValSplit(b, s, n);
    ShiftedLeftVal(b, m, q, kept, up, n);
    assert up[..n] == up && kept[..n] == kept;
    var lost := if n == 0 then 0 else ShlHigh(q, kept[n - 1]);
    var top := Val(b, s[n..]);
    PowAdd(b, n, offset);
    MovedUpArithmetic(Val(b, kept), top, Val(b, up), lost, m, o, p);
    ValBound(b, r);
    DivModUnique(Val(b, s) * (m * o), p * o, lost + top * m, Val(b, r));
  }

  lemma {:induction false} MovedUpArithmetic(low: nat, top: nat, up: nat, lost: nat, m: nat, o: nat, p: nat)
    requires up + lost * p == low * m
    ensures (low + top * p) * (m * o) == (lost + top * m) * (p * o) + up * o
  {
    calc {
      (low + top * p) * (m * o);
    ==  { Assoc(low + top * p, m, o); Distribute(low, top * p, m); }
      (low * m + (top * p) * m) * o;
    ==  { Assoc(top, p, m); Assoc(top, m, p); }
      (up + lost * p + (top * m) * p) * o;
    ==  { Distribute(lost, top * m, p); }
      (up + (lost + top * m) * p) * o;
    ==  { Distribute(up, (lost + top * m) * p, o); Assoc(lost + top * m, p, o); }
      up * o + (lost + top * m) * (p * o);
    }
  }

  /** How many whole words a shift moves, and how many bits beside them. */
  function WholeWords(shift: nat, w: nat): nat
    requires w >= 1
  {
    shift / w
  }

  function SpareBits(shift: nat, w: nat): nat
    requires w >= 1
  {
    shift % w
  }

  lemma {:induction false} ShiftFacts(shift: nat, w: nat, size: nat)
    requires w >= 1 && shift < size * w
    ensures WholeWords(shift, w) < size && SpareBits(shift, w) < w
  {
    if shift / w >= size {
      MulLe(size, shift / w, w);
      assert false;
    }
  }

  lemma {:induction false} UpBy(w: nat, b: nat, m: nat, q: nat, s: seq<nat>, shift: nat, r: seq<nat>)
    requires w >= 1 && b == Pow2(w) && m == Pow2(SpareBits(shift, w)) && m >= 1 && q >= 1 && b == q * m
    requires WholeWords(shift, w) <= |s| == |r| && Digits(b, r)
    requires forall i :: 0 <= i < WholeWords(shift, w) ==> r[i] == 0
    requires ShiftedLeft(b, m, q, s[..|s| - WholeWords(shift, w)], r[WholeWords(shift, w)..])
    ensures Val(b, r) == (Val(b, s) * Pow2(shift)) % Pow(b, |s|)
  {
    hide Val, Pow, Pow2, ShiftedLeft;
    SplitShift(w, shift);
    MovedUp(b, m, q, s, WholeWords(shift, w), r);
  }

  /** `operand` and `result` may be the same array: words are written from the top down. */
  method ShiftLeft(w: nat, b: nat, operand: array<nat>, shift: nat, result: array<nat>)
    requires w >= 1 && b == Pow2(w) && Digits(b, operand[..]) && result.Length == operand.Length
    requires shift < result.Length * w
    modifies result
    ensures Digits(b, result[..])
    ensures Val(b, result[..]) == (Val(b, old(operand[..])) * Pow2(shift)) % Pow(b, result.Length)
  {
    hide Val, Pow, Pow2, ShiftedLeft, WholeWords, SpareBits;
    ghost var s := operand[..];
    var offset, remainder := WholeWords(shift, w), SpareBits(shift, w);
    ShiftFacts(shift, w, operand.Length);
    var m, q := Pow2(remainder), Pow2(w - remainder);
    CutFacts(w, remainder, b, m, q);
    if remainder == 0 {
      Pow2Zero();
      MoveWordsUp(b, operand, offset, result);
    } else {
      ShiftWordsUp(w, remainder, b, m, q, operand, offset, result);
    }
    UpBy(w, b, m, q, s, shift, result[..]);
  }

  method MoveWordsUp(b: nat, operand: array<nat>, offset: nat, result: array<nat>)
    requires b >= 1 && Digits(b, operand[..]) && result.Length == operand.Length && offset < result.Length
    modifies result
    ensures Digits(b, result[..])
    ensures forall i :: 0 <= i < offset ==> result[i] == 0
    ensures ShiftedLeft(b, 1, b, old(operand[..])[..result.Length - offset], result[offset..])
  {
    ghost var s := operand[..];
    var i: nat := operand.Length;
    while i > offset
      invariant offset <= i <= operand.Length
      invariant forall k :: 0 <= k < i ==> operand[k] == s[k]
      invariant forall k :: i <= k < operand.Length ==> result[k] == s[k - offset]
    {
      i := i - 1;
      result[i] := operand[i - offset];
    }
    ZeroLow(result, offset);
    ghost var kept, up := s[..result.Length - offset], result[offset..];
    assert up == kept;
    UnshiftedWords(b, kept);
  }

  /** A shift by whole words leaves each word as it is. */
  lemma {:induction false} UnshiftedWords(b: nat, s: seq<nat>)
    requires b >= 1 && Digits(b, s)
    ensures ShiftedLeft(b, 1, b, s, s)
  {
    forall k | 0 <= k < |s|
      ensures s[k] == ShlLow(b, 1, s[k]) && ShlHigh(b, s[k]) == 0
    {
      DivModUnique(s[k], b, 0, s[k]);
    }
  }

  method ZeroLow(result: array<nat>, offset: nat)
    requires offset <= result.Length
    modifies result
    ensures forall i :: 0 <= i < offset ==> result[i] == 0
    ensures forall i :: offset <= i < result.Length ==> result[i] == old(result[i])
  {
    for i := 0 to offset
      invariant forall k :: 0 <= k < i ==> result[k] == 0
      invariant forall k :: offset <= k < result.Length ==> result[k] == old(result[k])
    {
      result[i] := 0;
    }
  }

  /** A word of the shifted number, from word `i` and the one before. */
  ghost function UpWord(b: nat, m: nat, q: nat, s: seq<nat>, i: nat): nat
    requires b >= 1 && q >= 1 && 0 < i < |s|
  {
    ShlLow(b, m, s[i]) + ShlHigh(q, s[i - 1])
  }

  lemma {:induction false} ShiftedUp(b: nat, m: nat, q: nat, s: seq<nat>, offset: nat, r: seq<nat>)
    requires b >= 1 && q >= 1 && offset < |r| == |s|
    requires r[offset] == ShlLow(b, m, s[0])
    requires forall k :: offset < k < |r| ==> r[k] == UpWord(b, m, q, s, k - offset)
    ensures ShiftedLeft(b, m, q, s[..|s| - offset], r[offset..])
  {
    hide ShlLow, ShlHigh;
  }

  lemma {:induction false} JoinedUp(w: nat, k: nat, b: nat, m: nat, q: nat, s: seq<nat>, i: nat)
    requires Cut(w, k, b, m, q) && b >= 1 && q >= 1 && 0 < i < |s| && Digits(b, s)
    ensures Or(ShlLow(b, m, s[i]), ShlHigh(q, s[i - 1])) == UpWord(b, m, q, s, i) < b
  {
    JoinLeft(w, k, b, m, q, s[i], s[i - 1]);
  }

  /** The loop over all words but the first. */
  method JoinWordsUp(w: nat, remainder: nat, b: nat, m: nat, q: nat, operand: array<nat>, offset: nat, result: array<nat>)
    requires Cut(w, remainder, b, m, q) && b >= 1 && q >= 1
    requires Digits(b, operand[..]) && result.Length == operand.Length && offset < result.Length
    modifies result
    ensures operand[0] == old(operand[0])
    ensures forall k :: offset < k < result.Length ==>
              result[k] == UpWord(b, m, q, old(operand[..]), k - offset) && result[k] < b
  {
    hide ShlLow, ShlHigh, Cut, Or, UpWord;
    ghost var s := operand[..];
    var i: nat := operand.Length - 1;
    while i > offset
      invariant offset <= i < operand.Length
      invariant forall k :: 0 <= k <= i ==> operand[k] == s[k]
      invariant forall k :: i < k < operand.Length ==> result[k] == UpWord(b, m, q, s, k - offset) && result[k] < b
    {
      ghost var at := i - offset;
      JoinedUp(w, remainder, b, m, q, s, at);
      result[i] := Or(ShlLow(b, m, operand[i - offset]), ShlHigh(q, operand[i - offset - 1]));
      i := i - 1;
    }
  }

  method ShiftWordsUp(w: nat, remainder: nat, b: nat, m: nat, q: nat, operand: array<nat>, offset: nat, result: array<nat>)
    requires Cut(w, remainder, b, m, q) && b >= 1 && m >= 1 && q >= 1
    requires Digits(b, operand[..]) && result.Length == operand.Length && offset < result.Length
    modifies result
    ensures Digits(b, result[..])
    ensures forall i :: 0 <= i < offset ==> result[i] == 0
    ensures ShiftedLeft(b, m, q, old(operand[..])[..result.Length - offset], result[offset..])
  {
    hide ShlLow, ShlHigh, Cut, Or, ShiftedLeft, UpWord;
    ghost var s := operand[..];
    JoinWordsUp(w, remainder, b, m, q, operand, offset, result);
    assert ShlLow(b, m, s[0]) < b by {
      CutFacts(w, remainder, b, m, q);
      LeftParts(b, m, q, s[0]);
    }
    result[offset] := ShlLow(b, m, operand[0]);
    ZeroLow(result, offset);
    ShiftedUp(b, m, q, s, offset, result[..]);
  }

  // ---------- right ----------

  ghost function NextLow(m: nat, s: seq<nat>, i: nat): nat
    requires m >= 1
  {
    if i < |s| then s[i] % m else 0
  }

  ghost predicate ShiftedRight(b: nat, m: nat, q: nat, s: seq<nat>, r: seq<nat>)
    requires b >= 1 && m >= 1
  {
    |r| == |s| && forall i :: 0 <= i < |r| ==>
      r[i] == ShlHigh(m, s[i]) + (if i + 1 == |s| then 0 else ShlLow(b, q, s[i + 1]))
  }

  lemma {:induction false} JoinRight(w: nat, k: nat, b: nat, m: nat, q: nat, x: nat, y: nat)
    requires Cut(w, k, b, m, q) && x < b
    ensures b >= 1 && m >= 1
    ensures Or(ShlHigh(m, x), ShlLow(b, q, y)) == ShlHigh(m, x) + ShlLow(b, q, y) < b
  {
    JoinLeft(w, w - k, b, q, m, y, x);
    OrCommutes(ShlHigh(m, x), ShlLow(b, q, y));
  }

  /** One word of the shifted number, scaled back. */
  lemma {:induction false} RightWord(b: nat, m: nat, q: nat, s: seq<nat>, r: seq<nat>, i: nat)
    requires m >= 1 && q >= 1 && b == q * m && i < |s| && ShiftedRight(b, m, q, s, r)
    ensures r[i] * m == s[i] - NextLow(m, s, i) + NextLow(m, s, i + 1) * b
  {
    var h := ShlHigh(m, s[i]);
    assert r[i] == h + (if i + 1 == |s| then 0 else ShlLow(b, q, s[i + 1]));
    assert h * m == s[i] - NextLow(m, s, i);
    if i + 1 == |s| {
      assert NextLow(m, s, i + 1) == 0;
    } else {
      LeftParts(b, q, m, s[i + 1]);
      var e := s[i + 1] % m;
      Distribute(h, e * q, m);
      Assoc(e, q, m);
    }
  }

  lemma {:induction false} ShiftedRightVal(b: nat, m: nat, q: nat, s: seq<nat>, r: seq<nat>, i: nat)
    requires m >= 1 && q >= 1 && b == q * m && ShiftedRight(b, m, q, s, r) && i <= |s|
    ensures Val(b, r[..i]) * m + NextLow(m, s, 0) == Val(b, s[..i]) + NextLow(m, s, i) * Pow(b, i)
  {
    hide Val, NextLow, ShiftedRight;
    if i == 0 {
      assert r[..0] == [] && s[..0] == [];
      ValZero(b, []);
    } else {
      ShiftedRightVal(b, m, q, s, r, i - 1);
      SameLength(b, m, q, s, r);
      var p := Pow(b, i - 1);
      ValStep(b, r, i - 1);
      ValStep(b, s, i - 1);
      RightWord(b, m, q, s, r, i - 1);
      RightStep(p, b, m, r[i - 1], s[i - 1], NextLow(m, s, i - 1), NextLow(m, s, i));
      Distribute(Val(b, r[..i - 1]), r[i - 1] * p, m);
    }
  }

  lemma {:induction false} SameLength(b: nat, m: nat, q: nat, s: seq<nat>, r: seq<nat>)
    requires b >= 1 && m >= 1 && ShiftedRight(b, m, q, s, r)
    ensures |r| == |s|
  {
  }

  lemma {:induction false} RightStep(p: nat, b: nat, m: nat, r: nat, x: nat, low: nat, next: nat)
    requires r * m == x - low + next * b
    ensures (r * p) * m == x * p - low * p + next * (p * b)
  {
    calc {
      (r * p) * m;
    ==  { Assoc(r, p, m); Assoc(r, m, p); }
      (r * m) * p;
    ==  { Distribute(x - low, next * b, p); Distribute(x, low, p); }
      x * p - low * p + (next * b) * p;
    ==  { Assoc(next, b, p); }
      x * p - low * p + next * (p * b);
    }
  }

  /** Words moved down by `offset` places under zeroes. */
  lemma {:induction false} MovedDown(b: nat, m: nat, q: nat, s: seq<nat>, offset: nat, r: seq<nat>)
    requires m >= 1 && q >= 1 && b == q * m && offset < |s| == |r| && Digits(b, s)
    requires forall i :: |s| - offset <= i < |r| ==> r[i] == 0
    requires ShiftedRight(b, m, q, s[offset..], r[..|s| - offset])
    ensures Val(b, r) == Val(b, s) / (m * Pow(b, offset))
  {
    hide Val, Pow, ShiftedRight;
    var n := |s| - offset;
    var kept, down := s[offset..], r[..n];
    var o := Pow(b, offset);
    ValPadded(b, r, n);
    ValSplit(b, s, offset);
    ShiftedRightVal(b, m, q, kept, down, n);
    assert down[..n] == down && kept[..n] == kept;
    var low, e := Val(b, s[..offset]), NextLow(m, kept, 0);
    ValBound(b, s[..offset]);
    LeftRoom(e, m, o);
    MovedDownArithmetic(low, Val(b, kept), Val(b, down), e, m, o);
    DivModUnique(Val(b, s), m * o, Val(b, r), low + e * o);
  }

  lemma {:induction false} MovedDownArithmetic(low: nat, kept: nat, down: nat, e: nat, m: nat, o: nat)
    requires down * m + e == kept
    ensures low + kept * o == down * (m * o) + (low + e * o)
  {
    Distribute(down * m, e, o);
    Assoc(down, m, o);
  }

  lemma {:induction false} DownBy(w: nat, b: nat, m: nat, q: nat, s: seq<nat>, shift: nat, r: seq<nat>)
    requires w >= 1 && b == Pow2(w) && m == Pow2(SpareBits(shift, w)) && m >= 1 && q >= 1 && b == q * m
    requires WholeWords(shift, w) < |s| == |r| && Digits(b, s)
    requires forall i :: |s| - WholeWords(shift, w) <= i < |r| ==> r[i] == 0
    requires ShiftedRight(b, m, q, s[WholeWords(shift, w)..], r[..|s| - WholeWords(shift, w)])
    ensures Val(b, r) == Val(b, s) / Pow2(shift)
  {
    hide Val, Pow, Pow2, ShiftedRight;
    SplitShift(w, shift);
    MovedDown(b, m, q, s, WholeWords(shift, w), r);
  }

  /** The operand is the first `size` words of an array, which may be the result: words are written from the bottom up. */
  method ShiftRight(w: nat, b: nat, operand: array<nat>, size: nat, shift: nat, result: array<nat>)
    requires w >= 1 && b == Pow2(w) && size <= operand.Length && size <= result.Length
    requires Digits(b, operand[..size]) && shift < size * w
    modifies result
    ensures Digits(b, result[..size]) && result[size..] == old(result[size..])
    ensures Val(b, result[..size]) == Val(b, old(operand[..size])) / Pow2(shift)
  {
    hide Val, Pow, Pow2, ShiftedRight, WholeWords, SpareBits;
    ghost var s := operand[..size];
    var offset, remainder := WholeWords(shift, w), SpareBits(shift, w);
    ShiftFacts(shift, w, size);
    var m, q := Pow2(remainder), Pow2(w - remainder);
    CutFacts(w, remainder, b, m, q);
    if remainder == 0 {
      Pow2Zero();
      MoveWordsDown(b, operand, size, offset, result);
    } else {
      ShiftWordsDown(w, remainder, b, m, q, operand, size, offset, result);
    }
    DownBy(w, b, m, q, s, shift, result[..size]);
  }

  method MoveWordsDown(b: nat, operand: array<nat>, size: nat, offset: nat, result: array<nat>)
    requires b >= 1 && offset < size <= operand.Length && size <= result.Length && Digits(b, operand[..size])
    modifies result
    ensures Digits(b, result[..size]) && forall i :: size <= i < result.Length ==> result[i] == old(result[i])
    ensures forall i :: size - offset <= i < size ==> result[i] == 0
    ensures ShiftedRight(b, 1, b, old(operand[..size])[offset..], result[..size][..size - offset])
  {
    hide ShiftedRight;
    ghost var s := operand[..size];
    for i := 0 to size - offset
      invariant forall k :: i <= k < size ==> operand[k] == s[k]
      invariant forall k :: 0 <= k < i ==> result[k] == s[k + offset]
      invariant forall k :: size <= k < result.Length ==> result[k] == old(result[k])
    {
      result[i] := operand[i + offset];
    }
    ZeroHigh(result, size - offset, size);
    ghost var kept, down := s[offset..], result[..size][..size - offset];
    assert down == kept;
    UnshiftedWordsDown(b, kept);
  }

  lemma {:induction false} UnshiftedWordsDown(b: nat, s: seq<nat>)
    requires b >= 1 && Digits(b, s)
    ensures ShiftedRight(b, 1, b, s, s)
  {
    forall k | 0 <= k < |s|
      ensures s[k] == ShlHigh(1, s[k]) && ShlLow(b, b, s[k]) == 0
    {
      DivModUnique(s[k] * b, b, s[k], 0);
    }
  }

  method ZeroHigh(result: array<nat>, low: nat, size: nat)
    requires low <= size <= result.Length
    modifies result
    ensures forall i :: low <= i < size ==> result[i] == 0
    ensures forall i :: 0 <= i < low || size <= i < result.Length ==> result[i] == old(result[i])
  {
    for i := low to size
      invariant forall k :: low <= k < i ==> result[k] == 0
      invariant forall k :: 0 <= k < low || size <= k < result.Length ==> result[k] == old(result[k])
    {
      result[i] := 0;
    }
  }

  /** A word of the shifted number, from word `i` and the next. */
  ghost function DownWord(b: nat, m: nat, q: nat, s: seq<nat>, i: nat): nat
    requires b >= 1 && m >= 1 && i + 1 < |s|
  {
    ShlHigh(m, s[i]) + ShlLow(b, q, s[i + 1])
  }

  lemma {:induction false} ShiftedDown(b: nat, m: nat, q: nat, s: seq<nat>, offset: nat, r: seq<nat>)
    requires b >= 1 && m >= 1 && offset < |r| == |s|
    requires r[|s| - offset - 1] == ShlHigh(m, s[|s| - 1])
    requires forall k :: 0 <= k < |s| - offset - 1 ==> r[k] == DownWord(b, m, q, s, k + offset)
    ensures ShiftedRight(b, m, q, s[offset..], r[..|s| - offset])
  {
    hide ShlLow, ShlHigh;
  }

  /** The loop over all words but the last. */
  method JoinWordsDown(w: nat, remainder: nat, b: nat, m: nat, q: nat, operand: array<nat>, size: nat, offset: nat,
      result: array<nat>)
    requires Cut(w, remainder, b, m, q) && b >= 1 && m >= 1
    requires offset < size <= operand.Length && size <= result.Length && Digits(b, operand[..size])
    modifies result
    ensures operand[size - 1] == old(operand[size - 1])
    ensures forall k :: 0 <= k < size - offset - 1 ==>
              result[k] == DownWord(b, m, q, old(operand[..size]), k + offset) && result[k] < b
    ensures forall k :: size <= k < result.Length ==> result[k] == old(result[k])
  {
    hide ShlLow, ShlHigh, Cut, Or, DownWord;
    ghost var s := operand[..size];
    for i := 0 to size - offset - 1
      invariant forall k :: i <= k < size ==> operand[k] == s[k]
      invariant forall k :: 0 <= k < i ==> result[k] == DownWord(b, m, q, s, k + offset) && result[k] < b
      invariant forall k :: size <= k < result.Length ==> result[k] == old(result[k])
    {
      ghost var at := i + offset;
      JoinedDown(w, remainder, b, m, q, s, at);
      result[i] := Or(ShlHigh(m, operand[i + offset]), ShlLow(b, q, operand[i + offset + 1]));
    }
  }

  lemma {:induction false} JoinedDown(w: nat, k: nat, b: nat, m: nat, q: nat, s: seq<nat>, i: nat)
    requires Cut(w, k, b, m, q) && b >= 1 && m >= 1 && i + 1 < |s| && Digits(b, s)
    ensures Or(ShlHigh(m, s[i]), ShlLow(b, q, s[i + 1])) == DownWord(b, m, q, s, i) < b
  {
    JoinRight(w, k, b, m, q, s[i], s[i + 1]);
  }

  method ShiftWordsDown(w: nat, remainder: nat, b: nat, m: nat, q: nat, operand: array<nat>, size: nat, offset: nat,
      result: array<nat>)
    requires Cut(w, remainder, b, m, q) && b >= 1 && m >= 1 && q >= 1
    requires offset < size <= operand.Length && size <= result.Length && Digits(b, operand[..size])
    modifies result
    ensures Digits(b, result[..size]) && forall i :: size <= i < result.Length ==> result[i] == old(result[i])
    ensures forall i :: size - offset <= i < size ==> result[i] == 0
    ensures ShiftedRight(b, m, q, old(operand[..size])[offset..], result[..size][..size - offset])
  {
    hide ShlLow, ShlHigh, Cut, Or, ShiftedRight, DownWord;
    ghost var s := operand[..size];
    JoinWordsDown(w, remainder, b, m, q, operand, size, offset, result);
    assert ShlHigh(m, s[size - 1]) < b by {
      JoinRight(w, remainder, b, m, q, s[size - 1], 0);
    }
    result[size - offset - 1] := ShlHigh(m, operand[size - 1]);
    ZeroHigh(result, size - offset, size);
    ShiftedDown(b, m, q, s, offset, result[..size]);
  }
}
