/** `AK/BigIntBase.h`: Knuth's Algorithm D (The Art of Computer Programming, volume 2, section 4.3.1). */
module BigIntDiv {
  import opened Common
  import opened Words
  import opened BigInt
  import opened BigIntShift
  import opened BigIntEstimate
  import Bits

  // ---------- D4: multiply and subtract ----------

  lemma {:induction false} WideBound(b: nat, x: nat, y: nat, c: nat)
    requires x < b && y < b && c < b
    ensures 0 <= x * y + c < b * b
  {
    ProductLe(x, b - 1, y, b - 1);
    Distribute(b, 1, b - 1);
  }

  ghost predicate OnlyWindow(now: seq<nat>, was: seq<nat>, from: nat, to: nat) {
    |now| == |was| && forall k :: 0 <= k < |now| && (k < from || k >= to) ==> now[k] == was[k]
  }

  /** `wide_multiply(x, y) + c` as two words. */
  method WideMultiplyAdd(b: nat, x: nat, y: nat, c: nat) returns (low: nat, high: nat)
    requires x < b && y < b && c < b
    ensures low < b && high < b && x * y + c == low + b * high
  {
    WideBound(b, x, y, c);
    var wide: nat := x * y + c;
    low, high := SplitDouble(b, wide);
  }

  /** One round of the subtracting loop. */
  method MulSubWord(b: nat, output: nat, qhat: nat, x: nat, mulCarry: nat, subCarry: bool)
    returns (word: nat, mulCarry': nat, subCarry': bool)
    requires output < b && qhat < b && x < b && mulCarry < b
    ensures word < b && mulCarry' < b
    ensures output - qhat * x - (mulCarry + B2N(subCarry)) == word - b * (mulCarry' + B2N(subCarry'))
  {
    var low;
    low, mulCarry' := WideMultiplyAdd(b, qhat, x, mulCarry);
    word, subCarry' := SubWords(b, output, low, subCarry);
    Distribute(mulCarry', B2N(subCarry'), b);
  }

  lemma {:induction false} WindowSnoc(b: nat, s: seq<nat>, off: nat, j: nat)
    requires off + j < |s|
    ensures Val(b, s[off..off + j + 1]) == Val(b, s[off..off + j]) + s[off + j] * Pow(b, j)
  {
    assert s[off..off + j + 1] == s[off..off + j] + [s[off + j]];
    ValSnoc(b, s[off..off + j], s[off + j]);
  }

  /** Subtracts `qhat` times the divisor from the window above `off`; true when that borrows. */
  method MulSub(b: nat, dividend: array<nat>, off: nat, divisor: seq<nat>, n: nat, qhat: nat) returns (subCarry: bool)
    requires b >= 1 && n <= |divisor| && off + n < dividend.Length && qhat < b
    requires Digits(b, dividend[..]) && Digits(b, divisor)
    modifies dividend
    ensures Digits(b, dividend[..]) && OnlyWindow(dividend[..], old(dividend[..]), off, off + n + 1)
    ensures Val(b, dividend[off..off + n + 1]) - B2N(subCarry) * Pow(b, n + 1)
         == Val(b, old(dividend[off..off + n + 1])) - qhat * Val(b, divisor[..n])
  {
    hide Val, Pow;
    ghost var was := dividend[..];
    var mulCarry: nat := 0;
    subCarry := false;
    assert dividend[off..off + 0] == [] && was[off..off + 0] == [] && divisor[..0] == [];
    ValZero(b, []);
    PowZero(b);
    for j: nat := 0 to n
      invariant Digits(b, dividend[..]) && mulCarry < b
      invariant OnlyWindow(dividend[..], was, off, off + j)
      invariant Val(b, dividend[off..off + j]) - (mulCarry + B2N(subCarry)) * Pow(b, j)
             == Val(b, was[off..off + j]) - qhat * Val(b, divisor[..j])
    {
      ghost var now, c := dividend[..], mulCarry + B2N(subCarry);
      var word;
      word, mulCarry, subCarry := MulSubWord(b, dividend[off + j], qhat, divisor[j], mulCarry, subCarry);
      dividend[off + j] := word;
      MulSubRound(b, was, now, dividend[..], off, divisor, qhat, j, c, mulCarry + B2N(subCarry));
    }
    ghost var now, c := dividend[..], mulCarry + B2N(subCarry);
    dividend[off + n], subCarry := SubWords(b, dividend[off + n], mulCarry, subCarry);
    MulSubLast(b, was, now, dividend[..], off, n, qhat * Val(b, divisor[..n]), c, B2N(subCarry));
  }

  lemma {:induction false} MulSubRound(b: nat, was: seq<nat>, now: seq<nat>, after: seq<nat>, off: nat, divisor: seq<nat>,
      qhat: nat, j: nat, c: int, c': int)
    requires j < |divisor| && off + j < |was| == |now| && OnlyWindow(now, was, off, off + j)
    requires OnlyWindow(after, now, off + j, off + j + 1)
    requires Val(b, now[off..off + j]) - c * Pow(b, j) == Val(b, was[off..off + j]) - qhat * Val(b, divisor[..j])
    requires now[off + j] - qhat * divisor[j] - c == after[off + j] - b * c'
    ensures Val(b, after[off..off + (j + 1)]) - c' * Pow(b, j + 1)
         == Val(b, was[off..off + (j + 1)]) - qhat * Val(b, divisor[..j + 1])
  {
    hide Val, Pow;
    var p := Pow(b, j);
    PowStep(b, j);
    assert after[off..off + j] == now[off..off + j];
    WindowSnoc(b, after, off, j);
    WindowSnoc(b, was, off, j);
    ValStep(b, divisor, j);
    assert now[off + j] == was[off + j];
    TimesParts(qhat, divisor[j], p, Val(b, divisor[..j]));
    SubStep(p, b, now[off + j], qhat * divisor[j], after[off + j], c, c');
  }

  lemma {:induction false} MulSubLast(b: nat, was: seq<nat>, now: seq<nat>, after: seq<nat>, off: nat, n: nat, taken: int, c: int, c': int)
    requires off + n < |was| == |now| && OnlyWindow(now, was, off, off + n) && OnlyWindow(after, now, off + n, off + n + 1)
    requires Val(b, now[off..off + n]) - c * Pow(b, n) == Val(b, was[off..off + n]) - taken
    requires now[off + n] - c == after[off + n] - b * c'
    ensures Val(b, after[off..off + n + 1]) - c' * Pow(b, n + 1) == Val(b, was[off..off + n + 1]) - taken
  {
    hide Val, Pow;
    PowStep(b, n);
    assert after[off..off + n] == now[off..off + n];
    WindowSnoc(b, after, off, n);
    WindowSnoc(b, was, off, n);
    assert now[off + n] == was[off + n];
    SubStep(Pow(b, n), b, now[off + n], 0, after[off + n], c, c');
  }

  // ---------- D6: add back ----------

  /** Adds the divisor to the window above `off` in place, with the carry out of its top word. */
  method AddBack(b: nat, dividend: array<nat>, off: nat, divisor: seq<nat>, n: nat) returns (carry: bool)
    requires b >= 1 && n <= |divisor| && off + n < dividend.Length
    requires Digits(b, dividend[..]) && Digits(b, divisor) && (n < |divisor| ==> divisor[n] == 0)
    modifies dividend
    ensures Digits(b, dividend[..]) && OnlyWindow(dividend[..], old(dividend[..]), off, off + n + 1)
    ensures Val(b, dividend[off..off + n + 1]) + B2N(carry) * Pow(b, n + 1)
         == Val(b, old(dividend[off..off + n + 1])) + Val(b, divisor[..n])
  {
    hide Val, Pow, Extended;
    ghost var was := dividend[..];
    ghost var e := Extended(divisor, 0, n + 1);
    ExtendedWords(divisor, 0, n + 1);
    carry := false;
    assert dividend[off..off + 0] == [] && was[off..off + 0] == [] && e[..0] == [];
    ValZero(b, []);
    PowZero(b);
    for j: nat := 0 to n + 1
      invariant Digits(b, dividend[..]) && OnlyWindow(dividend[..], was, off, off + j)
      invariant Val(b, dividend[off..off + j]) + B2N(carry) * Pow(b, j) == Val(b, was[off..off + j]) + Val(b, e[..j])
    {
      ghost var now, c := dividend[..], B2N(carry);
      dividend[off + j], carry := AddWords(b, dividend[off + j], WordAt(divisor, j, 0), carry);
      AddBackRound(b, was, now, dividend[..], off, e, j, c, B2N(carry));
    }
    assert e[..n + 1] == e && e[..n] == divisor[..n];
    ValPadded(b, e, n);
  }

  lemma {:induction false} AddBackRound(b: nat, was: seq<nat>, now: seq<nat>, after: seq<nat>, off: nat, e: seq<nat>, j: nat, c: int, c': int)
    requires j < |e| && off + j < |was| == |now| && OnlyWindow(now, was, off, off + j)
    requires OnlyWindow(after, now, off + j, off + j + 1)
    requires Val(b, now[off..off + j]) + c * Pow(b, j) == Val(b, was[off..off + j]) + Val(b, e[..j])
    requires now[off + j] + e[j] + c == after[off + j] + b * c'
    ensures Val(b, after[off..off + (j + 1)]) + c' * Pow(b, j + 1) == Val(b, was[off..off + (j + 1)]) + Val(b, e[..j + 1])
  {
    hide Val, Pow;
    PowStep(b, j);
    assert after[off..off + j] == now[off..off + j];
    WindowSnoc(b, after, off, j);
    WindowSnoc(b, was, off, j);
    ValStep(b, e, j);
    assert now[off + j] == was[off + j];
    AddStep(Pow(b, j), b, now[off + j], e[j], after[off + j], c, c');
  }

  // ---------- one quotient word ----------

  /** No borrow: the estimate was right. */
  lemma {:induction false} EstimateRight(u: int, v: int, qhat: nat, now: int, p: int)
    requires now == u - qhat * v && 0 <= now && u < (qhat + 1) * v
    ensures 0 <= now < v && now + qhat * v == u
  {
    Distribute(qhat, 1, v);
  }

  /** A borrow: the estimate was one too large, and adding the divisor back once carries out. */
  lemma {:induction false} EstimateOneOver(u: int, v: int, qhat: nat, sub: int, now: int, carry: bool, p: int)
    requires 0 <= sub < p && 0 <= now < p && 0 <= v
    requires sub - p == u - qhat * v && qhat * v <= u + v && u >= 0
    requires now + B2N(carry) * p == sub + v
    ensures carry && qhat >= 1 && 0 <= now < v && now + (qhat - 1) * v == u
  {
    Distribute(qhat, 1, v);
    if !carry {
      assert false;
    }
  }

  lemma {:induction false} TopZero(b: nat, s: seq<nat>)
    requires b >= 1 && s != [] && Val(b, s) < Pow(b, |s| - 1)
    ensures s[|s| - 1] == 0 && Val(b, s[..|s| - 1]) == Val(b, s)
  {
    var n := |s| - 1;
    MulLt(s[n], 1, Pow(b, n));
  }

  ghost predicate Normal(b: nat, divisor: seq<nat>, n: nat) {
    && 2 <= n <= |divisor| && Digits(b, divisor)
    && b <= 2 * divisor[n - 1]
    && forall k :: n <= k < |divisor| ==> divisor[k] == 0
  }

  /** One round of the main loop: a quotient word, and the window reduced below the divisor. */
  method DivStep(b: nat, dividend: array<nat>, divisor: seq<nat>, n: nat, i: nat) returns (q: nat)
    requires b >= 2 && Normal(b, divisor, n) && n <= i < dividend.Length && Digits(b, dividend[..])
    requires Val(b, dividend[i - n + 1..i + 1]) < Val(b, divisor[..n])
    modifies dividend
    ensures q < b && Digits(b, dividend[..]) && OnlyWindow(dividend[..], old(dividend[..]), i - n, i + 1)
    ensures dividend[i] == 0 && Val(b, dividend[i - n..i]) < Val(b, divisor[..n])
    ensures Val(b, dividend[i - n..i + 1]) + q * Val(b, divisor[..n]) == Val(b, old(dividend[i - n..i + 1]))
  {
    hide Val, Pow;
    var off: nat := i - n;
    ghost var was, v := dividend[..], divisor[..n];
    ghost var u := was[off..i + 1];
    assert u[1..] == was[off + 1..i + 1];
    TopAtMost(b, was[off + 1..i + 1], v);
    var qhat := EstimateQuotient(b, divisor[n - 1], divisor[n - 2], dividend[i], dividend[i - 1], dividend[i - 2]);
    EstimateFits(b, u, v, qhat);
    var subCarry := MulSub(b, dividend, off, divisor, n, qhat);
    ghost var sub := dividend[off..i + 1];
    ghost var p := Pow(b, n + 1);
    ValBound(b, sub);
    ValBound(b, v);
    PowStep(b, n);
    if subCarry {
      var overflow := AddBack(b, dividend, off, divisor, n);
      ValBound(b, dividend[off..i + 1]);
      EstimateOneOver(Val(b, u), Val(b, v), qhat, Val(b, sub), Val(b, dividend[off..i + 1]), overflow, p);
      assert overflow;
    } else {
      EstimateRight(Val(b, u), Val(b, v), qhat, Val(b, sub), p);
    }
    q := qhat - B2N(subCarry);
    TopZero(b, dividend[off..i + 1]);
    assert dividend[off..i + 1][..n] == dividend[off..i];
  }

  // ---------- the main loop ----------

  /** Taking a multiple from a window takes it, scaled, from the whole number. */
  lemma {:induction false} WindowTaken(b: nat, now: seq<nat>, after: seq<nat>, off: nat, end: nat, taken: nat)
    requires off <= end <= |now| && OnlyWindow(after, now, off, end)
    requires Val(b, after[off..end]) + taken == Val(b, now[off..end])
    requires forall k :: end <= k < |now| ==> now[k] == 0
    ensures Val(b, after) + taken * Pow(b, off) == Val(b, now)
  {
    hide Val, Pow;
    assert after[..off] == now[..off];
    ValSplit(b, now, off);
    ValSplit(b, after, off);
    ValPadded(b, now[off..], end - off);
    ValPadded(b, after[off..], end - off);
    assert now[off..][..end - off] == now[off..end] && after[off..][..end - off] == after[off..end];
    Distribute(Val(b, after[off..end]), taken, Pow(b, off));
  }

  lemma {:induction false} WindowKeepsZero(now: seq<nat>, after: seq<nat>, off: nat, i: nat)
    requires off <= i < |after| && OnlyWindow(after, now, off, i + 1) && after[i] == 0
    requires forall k :: i < k < |now| ==> now[k] == 0
    ensures forall k :: i <= k < |after| ==> after[k] == 0
  {
  }

  /** The quotient so far, with its new lowest word. */
  lemma {:induction false} QuotientGrows(b: nat, q: nat, quotient: seq<nat>, v: nat, off: nat)
    ensures v * (Val(b, [q] + quotient) * Pow(b, off)) == (q * v) * Pow(b, off) + v * (Val(b, quotient) * Pow(b, off + 1))
  {
    hide Val, Pow;
    ValCons(b, q, quotient);
    PowStep(b, off);
    var k, p := Val(b, quotient), Pow(b, off);
    calc {
      v * ((q + b * k) * p);
    ==  { Distribute(q, b * k, p); Assoc(k, b, p); }
      v * (q * p + k * (p * b));
    ==  { Distribute(q * p, k * (p * b), v); }
      v * (q * p) + v * (k * (p * b));
    ==  { Assoc(v, q, p); }
      (q * v) * p + v * (k * (p * b));
    }
  }

  /** The divisor times the quotient words from place `k` on. */
  ghost function Part(b: nat, divisor: seq<nat>, quotient: seq<nat>, k: nat): int {
    Val(b, divisor) * (Val(b, quotient) * Pow(b, k))
  }

  /** What the dividend loses in a round, the quotient gains. */
  lemma {:induction false} RoundBooks(b: nat, now: seq<nat>, after: seq<nat>, off: nat, end: nat, q: nat, v: seq<nat>, done: seq<nat>)
    requires off <= end <= |now| && OnlyWindow(after, now, off, end)
    requires Val(b, after[off..end]) + q * Val(b, v) == Val(b, now[off..end])
    requires forall k :: end <= k < |now| ==> now[k] == 0
    ensures Val(b, after) + Part(b, v, [q] + done, off) == Val(b, now) + Part(b, v, done, off + 1)
  {
    hide Val, Pow, OnlyWindow;
    var taken: nat := q * Val(b, v);
    WindowTaken(b, now, after, off, end, taken);
    QuotientGrows(b, q, done, Val(b, v), off);
  }

  /** One round of the main loop, seen from the whole numbers. */
  method DivRound(b: nat, dividend: array<nat>, divisor: seq<nat>, quotient: array<nat>, n: nat, i: nat, ghost len: nat)
    requires b >= 2 && Normal(b, divisor, n) && dividend != quotient && n <= i < dividend.Length
    requires i - n < len <= quotient.Length && Digits(b, dividend[..]) && Digits(b, quotient[i - n + 1..len])
    requires forall k :: i < k < dividend.Length ==> dividend[k] == 0
    requires Val(b, dividend[i - n + 1..i + 1]) < Val(b, divisor[..n])
    modifies dividend, quotient
    ensures Digits(b, dividend[..]) && Digits(b, quotient[i - n..len])
    ensures forall k :: i <= k < dividend.Length ==> dividend[k] == 0
    ensures Val(b, dividend[i - n..i]) < Val(b, divisor[..n])
    ensures Val(b, dividend[..]) + Part(b, divisor[..n], quotient[i - n..len], i - n)
      == old(Val(b, dividend[..])) + Part(b, divisor[..n], old(quotient[i - n + 1..len]), i - n + 1)
  {
    assert n <= |divisor|;
    hide Val, Pow, Normal, OnlyWindow, Digits, Part;
    ghost var now, done := dividend[..], quotient[i - n + 1..len];
    var q := DivStep(b, dividend, divisor, n, i);
    RoundBooks(b, now, dividend[..], i - n, i + 1, q, divisor[..n], done);
    WindowKeepsZero(now, dividend[..], i - n, i);
    StoreWord(quotient, i - n, q, len);
    DigitsCons(b, q, done);
  }

  method StoreWord(quotient: array<nat>, k: nat, q: nat, ghost len: nat)
    requires k < len <= quotient.Length
    modifies quotient
    ensures quotient[k..len] == [q] + old(quotient[k + 1..len])
  {
    quotient[k] := q;
  }

  lemma {:induction false} DigitsCons(b: nat, q: nat, s: seq<nat>)
    requires q < b && Digits(b, s)
    ensures Digits(b, [q] + s)
  {
  }

  method DivLoop(b: nat, dividend: array<nat>, divisor: seq<nat>, quotient: array<nat>, dividendLen: nat, n: nat)
    requires b >= 2 && Normal(b, divisor, n) && dividend != quotient && n <= dividendLen < dividend.Length
    requires dividendLen - n < quotient.Length && Digits(b, dividend[..])
    requires forall k :: dividendLen < k < dividend.Length ==> dividend[k] == 0
    requires Val(b, dividend[dividendLen + 1 - n..dividendLen + 1]) < Val(b, divisor[..n])
    modifies dividend, quotient
    ensures Digits(b, dividend[..]) && Digits(b, quotient[..dividendLen + 1 - n])
    ensures forall k :: n <= k < dividend.Length ==> dividend[k] == 0
    ensures Val(b, dividend[..n]) < Val(b, divisor[..n])
    ensures Val(b, dividend[..n]) + Val(b, divisor[..n]) * Val(b, quotient[..dividendLen + 1 - n]) == Val(b, old(dividend[..]))
  {
    assert n <= |divisor|;
    hide Val, Pow, Normal, Part, Digits;
    ghost var v, len := Val(b, divisor[..n]), dividendLen + 1 - n;
    ghost var u := Val(b, dividend[..]);
    var i: nat := dividendLen + 1;
    assert quotient[len..len] == [];
    FirstRound(b, divisor[..n], len);
    while i > n
      invariant n <= i <= dividendLen + 1
      invariant Digits(b, dividend[..]) && Digits(b, quotient[i - n..len])
      invariant forall k :: i <= k < dividend.Length ==> dividend[k] == 0
      invariant Val(b, dividend[i - n..i]) < v
      invariant Val(b, dividend[..]) + Part(b, divisor[..n], quotient[i - n..len], i - n) == u
    {
      i := i - 1;
      DivRound(b, dividend, divisor, quotient, n, i, len);
    }
    assert quotient[0..len] == quotient[..len] && dividend[0..n] == dividend[..n];
    LastRound(b, dividend[..], n, divisor[..n], quotient[..len]);
    assert dividend[..][..n] == dividend[..n];
  }

  lemma {:induction false} FirstRound(b: nat, v: seq<nat>, k: nat)
    ensures Part(b, v, [], k) == 0 && Digits(b, [])
  {
    ValZero(b, []);
  }

  lemma {:induction false} LastRound(b: nat, s: seq<nat>, n: nat, v: seq<nat>, q: seq<nat>)
    requires n <= |s| && forall k :: n <= k < |s| ==> s[k] == 0
    ensures Val(b, s) + Part(b, v, q, 0) == Val(b, s[..n]) + Val(b, v) * Val(b, q)
  {
    PowZero(b);
    ValPadded(b, s, n);
  }

  // ---------- D1 and D8: normalizing ----------

  function CountLeadingZeroes(w: nat, x: nat): (r: nat)
    requires 0 < x < Bits.Pow2(w)
    ensures r < w
  {
    if Bits.Pow2(w - 1) <= x then 0
    else CountLeadingZeroes(w - 1, x) + 1
  }

  /** Shifted by that many places, a word has its top bit set and loses nothing. */
  lemma {:induction false} ClzNormalizes(w: nat, x: nat)
    requires 0 < x < Bits.Pow2(w)
    ensures var r := CountLeadingZeroes(w, x); Bits.Pow2(w) <= 2 * (x * Bits.Pow2(r)) && x * Bits.Pow2(r) < Bits.Pow2(w)
  {
    if Bits.Pow2(w - 1) <= x {
    } else {
      ClzNormalizes(w - 1, x);
      var r := CountLeadingZeroes(w - 1, x);
      Assoc(2, x, Bits.Pow2(r));
      Assoc(x, 2, Bits.Pow2(r));
    }
  }

  /** A number below `b^n` has no words from place `n` on. */
  lemma {:induction false} HighZero(b: nat, s: seq<nat>, n: nat)
    requires b >= 1 && n <= |s| && Val(b, s) < Pow(b, n)
    ensures Val(b, s[..n]) == Val(b, s) && forall k :: n <= k < |s| ==> s[k] == 0
  {
    hide Val, Pow;
    ValSplit(b, s, n);
    MulLt(Val(b, s[n..]), 1, Pow(b, n));
    forall k | n <= k < |s|
      ensures s[k] == 0
    {
      ValZeroOnly(b, s[n..], k - n);
      assert s[n..][k - n] == s[k];
    }
  }

  lemma {:induction false} TopWordAtLeast(b: nat, s: seq<nat>, x: nat)
    requires b >= 1 && s != [] && Digits(b, s) && x * Pow(b, |s| - 1) <= Val(b, s)
    ensures x <= s[|s| - 1]
  {
    hide Val, Pow;
    var n := |s| - 1;
    ValStep(b, s, n);
    assert s[..n + 1] == s;
    ValBound(b, s[..n]);
    Distribute(s[n], 1, Pow(b, n));
    MulLt(x, s[n] + 1, Pow(b, n));
  }

  /** A shift that loses no bit is a multiplication. */
  lemma {:induction false} NoBitLost(x: nat, m: nat, limit: nat, p: nat)
    requires p >= 1 && 0 <= x * m < limit <= p
    ensures (x * m) % p == x * m
  {
    Bits.DivModUnique(x * m, p, 0, x * m);
  }

  lemma {:induction false} ShiftedWordRoom(w: nat, shift: nat, x: nat)
    requires shift <= w && x * Bits.Pow2(shift) < Bits.Pow2(w)
    ensures (x + 1) * Bits.Pow2(shift) <= Bits.Pow2(w)
  {
    var m, q := Bits.Pow2(shift), Bits.Pow2(w - shift);
    Bits.Pow2Add(w - shift, shift);
    MulLt(x, q, m);
    MulLe(x + 1, q, m);
  }

  lemma {:induction false} PowMonotone(b: nat, m: nat, n: nat)
    requires b >= 1 && m <= n
    ensures Pow(b, m) <= Pow(b, n)
  {
    if m < n {
      PowMonotone(b, m, n - 1);
      MulLe(1, b, Pow(b, n - 1));
    }
  }

  /** The value of a divisor, between its top word and one more. */
  lemma {:induction false} TopWordBounds(b: nat, s: seq<nat>)
    requires s != [] && Digits(b, s)
    ensures s[|s| - 1] * Pow(b, |s| - 1) <= Val(b, s) < (s[|s| - 1] + 1) * Pow(b, |s| - 1)
  {
    var n := |s| - 1;
    ValBound(b, s[..n]);
    Distribute(s[n], 1, Pow(b, n));
  }

  lemma {:induction false} ScaleBounds(x: nat, p: nat, v: nat, m: nat)
    requires x * p <= v < (x + 1) * p && m >= 1
    ensures (x * m) * p <= v * m < ((x + 1) * m) * p
  {
    MulLe(x * p, v, m);
    MulLt(v, (x + 1) * p, m);
    Assoc(x, p, m);
    Assoc(x, m, p);
    Assoc(x + 1, p, m);
    Assoc(x + 1, m, p);
  }

  /** D1 for the divisor: shifted until its top bit is set. */
  lemma {:induction false} NormalDivisor(w: nat, b: nat, v: seq<nat>, n: nat, shift: nat, v': seq<nat>)
    requires w >= 1 && b == Bits.Pow2(w) && 2 <= n <= |v| == |v'| && Digits(b, v) && Digits(b, v')
    requires forall k :: n <= k < |v| ==> v[k] == 0
    requires 0 < v[n - 1] && shift == CountLeadingZeroes(w, v[n - 1])
    requires Val(b, v') == (Val(b, v) * Bits.Pow2(shift)) % Pow(b, |v|)
    ensures Normal(b, v', n) && Val(b, v'[..n]) == Val(b, v) * Bits.Pow2(shift)
  {
    hide Val, Pow, Bits.Pow2, CountLeadingZeroes, Normal;
    var m, x := Bits.Pow2(shift), v[n - 1];
    ClzNormalizes(w, x);
    ShiftedWordRoom(w, shift, x);
    ValPadded(b, v, n);
    DivisorRange(b, v[..n], m);
    PowMonotone(b, n, |v|);
    NoBitLost(Val(b, v), m, Pow(b, n), Pow(b, |v|));
    NormalFromRange(b, v', n, x * m);
  }

  lemma {:induction false} DivisorRange(b: nat, v: seq<nat>, m: nat)
    requires |v| >= 1 && Digits(b, v) && m >= 1 && (v[|v| - 1] + 1) * m <= b
    ensures (v[|v| - 1] * m) * Pow(b, |v| - 1) <= Val(b, v) * m < Pow(b, |v|)
  {
    hide Val, Pow;
    var x, p := v[|v| - 1], Pow(b, |v| - 1);
    TopWordBounds(b, v);
    ScaleBounds(x, p, Val(b, v), m);
    MulLe((x + 1) * m, b, p);
    PowStep(b, |v| - 1);
  }

  lemma {:induction false} NormalFromRange(b: nat, v: seq<nat>, n: nat, y: nat)
    requires b >= 1 && 2 <= n <= |v| && Digits(b, v) && b <= 2 * y
    requires y * Pow(b, n - 1) <= Val(b, v) < Pow(b, n)
    ensures Normal(b, v, n) && Val(b, v[..n]) == Val(b, v)
  {
    hide Val, Pow;
    HighZero(b, v, n);
    TopWordAtLeast(b, v[..n], y);
  }

  /** D1 for the dividend: one more word takes what the shift pushes out. */
  lemma {:induction false} NormalDividend(b: nat, u: seq<nat>, len: nat, m: nat, u': seq<nat>)
    requires b >= 2 && len < |u| == |u'| && Digits(b, u) && Digits(b, u') && 1 <= m <= b
    requires forall k :: len <= k < |u| ==> u[k] == 0
    requires Val(b, u') == (Val(b, u) * m) % Pow(b, |u|)
    ensures Val(b, u') == Val(b, u) * m
    ensures u'[len] < m && forall k :: len < k < |u'| ==> u'[k] == 0
  {
    hide Val, Pow;
    var p := Pow(b, len);
    ValPadded(b, u, len);
    ValBound(b, u[..len]);
    MulLt(Val(b, u), p, m);
    MulLe(m, b, p);
    PowStep(b, len);
    PowMonotone(b, len + 1, |u|);
    NoBitLost(Val(b, u), m, Pow(b, len + 1), Pow(b, |u|));
    HighZero(b, u', len + 1);
    ValStep(b, u', len);
    MulLt(u'[len], m, p);
  }

  /** The leading window starts below the divisor. */
  lemma {:induction false} LeadingWindow(b: nat, w: seq<nat>, v: seq<nat>)
    requires |w| == |v| >= 1 && Digits(b, w) && Digits(b, v) && w[|w| - 1] < v[|v| - 1]
    ensures Val(b, w) < Val(b, v)
  {
    assert w[|w|..] == v[|v|..];
    TopDiffers(b, w, v, |w| - 1);
  }

  /** D8: what is left, shifted back, is the remainder. */
  lemma {:induction false} Unnormalized(u: nat, v: nat, q: nat, m: nat, left: nat)
    requires m >= 1 && left < v * m && left + (v * m) * q == u * m
    ensures left / m < v && v * q + left / m == u
  {
    Assoc(v, m, q);
    Assoc(v, q, m);
    Distribute(u, v * q, m);
    MulLt(v * q, u + 1, m);
    MulLt(u - v * q, v, m);
    Bits.DivModUnique(left, m, u - v * q, 0);
  }

  /** D1 on the heap. Afterwards the main loop may start. */
  method Normalize(w: nat, b: nat, dividend: array<nat>, divisor: array<nat>, dividendLen: nat, n: nat) returns (shift: nat)
    requires w >= 1 && b == Bits.Pow2(w) && b >= 2 && dividend != divisor
    requires 2 <= n <= divisor.Length && n <= dividendLen < dividend.Length
    requires Digits(b, dividend[..]) && Digits(b, divisor[..]) && divisor[n - 1] != 0
    requires forall k :: dividendLen <= k < dividend.Length ==> dividend[k] == 0
    requires forall k :: n <= k < divisor.Length ==> divisor[k] == 0
    modifies dividend, divisor
    ensures shift < w && Digits(b, dividend[..]) && Normal(b, divisor[..], n)
    ensures Val(b, dividend[..]) == Val(b, old(dividend[..])) * Bits.Pow2(shift)
    ensures Val(b, divisor[..n]) == Val(b, old(divisor[..])) * Bits.Pow2(shift)
    ensures dividend[dividendLen] < Bits.Pow2(shift) && 2 * Bits.Pow2(shift) <= b
    ensures forall k :: dividendLen < k < dividend.Length ==> dividend[k] == 0
  {
    hide Val, Pow, Bits.Pow2, CountLeadingZeroes, Normal;
    ghost var u, v := dividend[..], divisor[..];
    shift := CountLeadingZeroes(w, divisor[n - 1]);
    ShiftInside(w, shift, dividend.Length);
    ShiftInside(w, shift, divisor.Length);
    ShiftLeft(w, b, dividend, shift, dividend);
    ShiftLeft(w, b, divisor, shift, divisor);
    HalfWord(w, shift);
    NormalDivisor(w, b, v, n, shift, divisor[..]);
    assert divisor[..][..n] == divisor[..n];
    NormalDividend(b, u, dividendLen, Bits.Pow2(shift), dividend[..]);
  }

  lemma {:induction false} ShiftInside(w: nat, shift: nat, length: nat)
    requires shift < w && length >= 1
    ensures shift < length * w
  {
    MulLe(1, length, w);
  }

  lemma {:induction false} HalfWord(w: nat, shift: nat)
    requires shift < w
    ensures 2 * Bits.Pow2(shift) <= Bits.Pow2(w)
  {
    Bits.Pow2Monotone(shift + 1, w);
  }

  /** The main loop and the zero words above the quotient. */
  method DivideNormal(b: nat, dividend: array<nat>, divisor: seq<nat>, quotient: array<nat>, dividendLen: nat, n: nat)
    requires b >= 2 && Normal(b, divisor, n) && dividend != quotient && n <= dividendLen < dividend.Length
    requires dividendLen - n < quotient.Length && Digits(b, dividend[..])
    requires forall k :: dividendLen < k < dividend.Length ==> dividend[k] == 0
    requires Val(b, dividend[dividendLen + 1 - n..dividendLen + 1]) < Val(b, divisor[..n])
    modifies dividend, quotient
    ensures Digits(b, dividend[..]) && Digits(b, quotient[..])
    ensures forall k :: n <= k < dividend.Length ==> dividend[k] == 0
    ensures Val(b, dividend[..n]) < Val(b, divisor[..n])
    ensures Val(b, dividend[..n]) + Val(b, divisor[..n]) * Val(b, quotient[..]) == Val(b, old(dividend[..]))
  {
    assert n <= |divisor|;
    hide Val, Pow, Normal;
    var len := dividendLen + 1 - n;
    DivLoop(b, dividend, divisor, quotient, dividendLen, n);
    ghost var q := quotient[..len];
    ZeroHigh(quotient, len, quotient.Length);
    assert quotient[..][..len] == q;
    QuotientPadded(b, quotient[..], len);
  }

  /** Long division: dividend = quotient * divisor + remainder, remainder < divisor. */
  method DivModInternal(w: nat, b: nat, dividend: array<nat>, divisor: array<nat>, quotient: array<nat>,
      remainder: array<nat>, dividendLen: nat, n: nat, restoreRemainder: bool)
    requires w >= 1 && b == Bits.Pow2(w) && b >= 2
    requires dividend != divisor && dividend != quotient && dividend != remainder
    requires divisor != quotient && divisor != remainder && quotient != remainder
    requires 2 <= n <= divisor.Length && n <= dividendLen < dividend.Length
    requires dividendLen - n < quotient.Length && n <= remainder.Length
    requires Digits(b, dividend[..]) && Digits(b, divisor[..]) && divisor[n - 1] != 0
    requires forall k :: dividendLen <= k < dividend.Length ==> dividend[k] == 0
    requires forall k :: n <= k < divisor.Length ==> divisor[k] == 0
    modifies dividend, divisor, quotient, remainder
    ensures Digits(b, quotient[..])
    ensures var u, v := Val(b, old(dividend[..])), Val(b, old(divisor[..]));
            0 <= u - v * Val(b, quotient[..]) < v
    ensures var written := if restoreRemainder then Min(remainder.Length, dividend.Length) else 0;
            && Digits(b, remainder[..written]) && remainder[written..] == old(remainder[written..])
            && (restoreRemainder ==>
                  Val(b, remainder[..written]) == Val(b, old(dividend[..])) - Val(b, old(divisor[..])) * Val(b, quotient[..]))
  {
    hide Val, Pow, Bits.Pow2, Normal;
    ghost var u, v, rest := Val(b, dividend[..]), Val(b, divisor[..]), remainder[..];
    var shift := Normalize(w, b, dividend, divisor, dividendLen, n);
    ghost var m := Bits.Pow2(shift);
    StartBelow(b, dividend[..], divisor[..], dividendLen, n, m);
    assert divisor[..][..n] == divisor[..n];
    DivideNormal(b, dividend, divisor[..], quotient, dividendLen, n);
    Unnormalized(u, v, Val(b, quotient[..]), m, Val(b, dividend[..n]));
    if restoreRemainder {
      var size := Min(remainder.Length, dividend.Length);
      ShiftInside(w, shift, size);
      PrefixVal(b, dividend[..], n, size);
      ShiftRight(w, b, dividend, size, shift, remainder);
    }
  }

  lemma {:induction false} QuotientPadded(b: nat, s: seq<nat>, n: nat)
    requires b >= 1 && n <= |s| && Digits(b, s[..n]) && forall k :: n <= k < |s| ==> s[k] == 0
    ensures Digits(b, s) && Val(b, s) == Val(b, s[..n])
  {
    ValPadded(b, s, n);
    forall k | 0 <= k < |s|
      ensures s[k] < b
    {
      if k < n {
        assert s[k] == s[..n][k];
      }
    }
  }

  lemma {:induction false} PrefixVal(b: nat, s: seq<nat>, n: nat, size: nat)
    requires n <= size <= |s| && forall k :: n <= k < |s| ==> s[k] == 0
    ensures Val(b, s[..size]) == Val(b, s[..n])
  {
    ValPadded(b, s[..size], n);
    assert s[..size][..n] == s[..n];
  }

  lemma {:induction false} StartBelow(b: nat, u: seq<nat>, v: seq<nat>, len: nat, n: nat, m: nat)
    requires Normal(b, v, n) && n <= len < |u| && Digits(b, u) && u[len] < m && 2 * m <= b
    ensures Val(b, u[len + 1 - n..len + 1]) < Val(b, v[..n])
  {
    LeadingWindow(b, u[len + 1 - n..len + 1], v[..n]);
  }

  // ---------- `AK/UFixedBigIntDivision.h`: any two operands ----------

  /** The length of a storage without its leading zero words. */
  ghost function Length(s: seq<nat>): nat {
    if s == [] then 0 else if s[|s| - 1] != 0 then |s| else Length(s[..|s| - 1])
  }

  lemma {:induction false} LengthIs(s: seq<nat>, len: nat)
    requires len <= |s| && (len > 0 ==> s[len - 1] != 0) && forall k :: len <= k < |s| ==> s[k] == 0
    ensures Length(s) == len
  {
    if len < |s| {
      LengthIs(s[..|s| - 1], len);
    }
  }

  method SignificantLength(b: nat, s: seq<nat>) returns (len: nat)
    requires b >= 1
    ensures len == Length(s) <= |s| && (len > 0 ==> s[len - 1] != 0)
    ensures forall k :: len <= k < |s| ==> s[k] == 0
    ensures len == 0 <==> Val(b, s) == 0
  {
    len := |s|;
    while len > 0 && s[len - 1] == 0
      invariant len <= |s| && forall k :: len <= k < |s| ==> s[k] == 0
    {
      len := len - 1;
    }
    LengthIs(s, len);
    if len == 0 {
      ValZero(b, s);
    } else if Val(b, s) == 0 {
      ValZeroOnly(b, s, len - 1);
      assert false;
    }
  }

  /** `Ops::set`. */
  method SetWord(b: nat, value: nat, result: array<nat>)
    requires b >= 1 && value < b && result.Length >= 1
    modifies result
    ensures Digits(b, result[..]) && Val(b, result[..]) == value
  {
    result[0] := value;
    ZeroHigh(result, 1, result.Length);
    ValPadded(b, result[..], 1);
    assert result[..][..1] == [value];
    assert [value][..0] == [];
  }

  /** `Ops::copy` of an unsigned storage, without offset. */
  method CopyWords(b: nat, op: seq<nat>, result: array<nat>, ghost len: nat)
    requires b >= 1 && Digits(b, op) && len <= |op| && len <= result.Length
    requires forall k :: len <= k < |op| ==> op[k] == 0
    modifies result
    ensures Digits(b, result[..]) && Val(b, result[..]) == Val(b, op)
    ensures forall k :: 0 <= k < result.Length ==> result[k] == WordAt(op, k, 0)
  {
    for i := 0 to result.Length
      invariant forall k :: 0 <= k < i ==> result[k] == WordAt(op, k, 0)
    {
      result[i] := WordAt(op, i, 0);
    }
    ValPadded(b, op, len);
    ValPadded(b, result[..], len);
    assert result[..][..len] == op[..len];
  }

  /** One step of the division by a single word, from the top. */
  lemma {:induction false} ShortStep(b: nat, op: seq<nat>, i: nat, q: nat, qs: seq<nat>, d: nat, carry: nat, carry': nat)
    requires i < |op| && carry * b + op[i] == q * d + carry'
    requires Val(b, op[i + 1..]) == d * Val(b, qs) + carry
    ensures Val(b, op[i..]) == d * Val(b, [q] + qs) + carry'
  {
    hide Val;
    assert op[i..] == [op[i]] + op[i + 1..];
    ValCons(b, op[i], op[i + 1..]);
    ValCons(b, q, qs);
    var k := Val(b, qs);
    calc {
      op[i] + b * (d * k + carry);
    ==  { Distribute(d * k, carry, b); Assoc(b, d, k); Assoc(d, b, k); }
      op[i] + carry * b + d * (b * k);
    ==
      q * d + carry' + d * (b * k);
    ==  { Distribute(q, b * k, d); }
      d * (q + b * k) + carry';
    }
  }

  /** Division by one word: the two top words together, then one word at a time. */
  method DivideByWord(b: nat, op: seq<nat>, d: nat, quotient: array<nat>, len: nat) returns (carry: nat)
    requires b >= 2 && Digits(b, op) && 0 < d < b && 2 <= len <= |op| && len <= quotient.Length
    requires forall k :: len <= k < |op| ==> op[k] == 0
    modifies quotient
    ensures Digits(b, quotient[..]) && carry < d
    ensures Val(b, op) == d * Val(b, quotient[..]) + carry
  {
    hide Val;
    carry := DivideTop(b, op[len - 1], op[len - 2], d, quotient, len);
    var i: nat := len - 2;
    ghost var number := op[..len];
    TopPair(b, number);
    TopPair(b, quotient[..len]);
    while i > 0
      invariant i <= len - 2 && carry < d
      invariant Digits(b, quotient[i..len])
      invariant Val(b, number[i..]) == d * Val(b, quotient[i..len]) + carry
    {
      i := i - 1;
      ghost var done, was := quotient[i + 1..len], carry;
      quotient[i], carry := DivModWords(b, op[i], carry, d);
      assert quotient[i..len] == [quotient[i]] + done;
      ShortStep(b, number, i, quotient[i], done, d, was, carry);
    }
    assert number[0..] == number && quotient[0..len] == quotient[..len];
    ghost var q := quotient[..len];
    ZeroHigh(quotient, len, quotient.Length);
    assert quotient[..][..len] == q;
    QuotientPadded(b, quotient[..], len);
    ValPadded(b, op, len);
  }

  lemma {:induction false} TopPair(b: nat, s: seq<nat>)
    requires |s| >= 2
    ensures Val(b, s[|s| - 2..]) == s[|s| - 1] * b + s[|s| - 2]
  {
    TopTwo(b, s[|s| - 2..], 0);
    assert s[|s| - 2..][..0] == [];
  }

  method DivideTop(b: nat, high: nat, low: nat, d: nat, quotient: array<nat>, len: nat) returns (carry: nat)
    requires b >= 2 && high < b && low < b && 0 < d < b && 2 <= len <= quotient.Length
    modifies quotient
    ensures carry < d && quotient[len - 1] < b && quotient[len - 2] < b
    ensures high * b + low == d * (quotient[len - 1] * b + quotient[len - 2]) + carry
  {
    var top;
    top, carry := DivideDouble(b, high, low, d);
    quotient[len - 2], quotient[len - 1] := SplitDouble(b, top);
  }

  method DivideDouble(b: nat, high: nat, low: nat, d: nat) returns (top: nat, carry: nat)
    requires high < b && low < b && 0 < d
    ensures top < b * b && carry < d && high * b + low == d * top + carry
  {
    DwordBelow(b, low, high, b);
    var u: nat := high * b + low;
    QuotientAtMost(u, d);
    top, carry := u / d, u % d;
  }

  method SplitDouble(b: nat, x: nat) returns (low: nat, high: nat)
    requires b >= 1 && x < b * b
    ensures low < b && high < b && x == high * b + low
  {
    QuotientBelow(x, b, b);
    Halves(b, x);
    low, high := x % b, x / b;
  }

  lemma {:induction false} QuotientAtMost(u: nat, d: nat)
    requires d > 0
    ensures 0 <= u / d <= u && 0 <= u % d < d && u == d * (u / d) + u % d
  {
    MulLe(1, d, u / d);
  }

  lemma {:induction false} OneWord(b: nat, s: seq<nat>)
    requires |s| >= 1 && forall k :: 1 <= k < |s| ==> s[k] == 0
    ensures Val(b, s) == s[0]
  {
    ValPadded(b, s, 1);
    assert s[..1] == [s[0]];
    assert [s[0]][..0] == [];
  }

  /** The result of a division: quotient and, when asked for, remainder. */
  ghost predicate Divided(b: nat, op1: seq<nat>, op2: seq<nat>, quotient: seq<nat>) {
    Digits(b, quotient) && 0 <= Val(b, op1) - Val(b, op2) * Val(b, quotient) < Val(b, op2)
  }

  ghost predicate Remains(b: nat, op1: seq<nat>, op2: seq<nat>, quotient: seq<nat>, remainder: seq<nat>) {
    Digits(b, remainder) && Val(b, remainder) == Val(b, op1) - Val(b, op2) * Val(b, quotient)
  }

  method DivideByOne(b: nat, op1: seq<nat>, op2: seq<nat>, quotient: array<nat>, remainder: array<nat>, restoreRemainder: bool)
    requires b >= 2 && Digits(b, op1) && Val(b, op2) == 1 && quotient != remainder
    requires quotient.Length == |op1| && remainder.Length >= 1
    modifies quotient, remainder
    ensures Divided(b, op1, op2, quotient[..])
    ensures restoreRemainder ==> Remains(b, op1, op2, quotient[..], remainder[..])
    ensures !restoreRemainder ==> remainder[..] == old(remainder[..])
  {
    hide Val;
    CopyWords(b, op1, quotient, |op1|);
    if restoreRemainder {
      SetWord(b, 0, remainder);
    }
  }

  /** A shorter number is smaller. */
  lemma {:induction false} ShorterIsSmaller(b: nat, op1: seq<nat>, op2: seq<nat>, len1: nat, len2: nat)
    requires b >= 1 && len1 < len2 <= |op2| && len1 <= |op1| && Digits(b, op1) && op2[len2 - 1] != 0
    requires forall k :: len1 <= k < |op1| ==> op1[k] == 0
    ensures Val(b, op1) < Val(b, op2)
  {
    hide Val, Pow;
    ValPadded(b, op1, len1);
    ValBound(b, op1[..len1]);
    PowMonotone(b, len1, len2 - 1);
    ValSplit(b, op2, len2);
    ValStep(b, op2, len2 - 1);
    MulLe(1, op2[len2 - 1], Pow(b, len2 - 1));
  }

  method DivideSmaller(b: nat, op1: seq<nat>, op2: seq<nat>, len1: nat, quotient: array<nat>, remainder: array<nat>, restoreRemainder: bool)
    requires b >= 2 && Digits(b, op1) && Val(b, op1) < Val(b, op2) && quotient != remainder
    requires len1 <= |op1| && len1 <= remainder.Length && quotient.Length >= 1
    requires forall k :: len1 <= k < |op1| ==> op1[k] == 0
    modifies quotient, remainder
    ensures Divided(b, op1, op2, quotient[..])
    ensures restoreRemainder ==> Remains(b, op1, op2, quotient[..], remainder[..])
    ensures !restoreRemainder ==> remainder[..] == old(remainder[..])
  {
    hide Val;
    SetWord(b, 0, quotient);
    if restoreRemainder {
      CopyWords(b, op1, remainder, len1);
    }
  }

  method DivideWordByWord(b: nat, op1: seq<nat>, op2: seq<nat>, quotient: array<nat>, remainder: array<nat>, restoreRemainder: bool)
    requires b >= 2 && |op1| >= 1 && |op2| >= 1 && quotient != remainder && quotient.Length >= 1 && remainder.Length >= 1
    requires Val(b, op1) == op1[0] < b && Val(b, op2) == op2[0] < b && op2[0] > 0
    modifies quotient, remainder
    ensures Divided(b, op1, op2, quotient[..])
    ensures restoreRemainder ==> Remains(b, op1, op2, quotient[..], remainder[..])
    ensures !restoreRemainder ==> remainder[..] == old(remainder[..])
  {
    hide Val;
    QuotientAtMost(op1[0], op2[0]);
    SetWord(b, op1[0] / op2[0], quotient);
    if restoreRemainder {
      SetWord(b, op1[0] % op2[0], remainder);
    }
  }

  method DivideBySingle(b: nat, op1: seq<nat>, op2: seq<nat>, len1: nat, quotient: array<nat>, remainder: array<nat>, restoreRemainder: bool)
    requires b >= 2 && Digits(b, op1) && |op2| >= 1 && Val(b, op2) == op2[0] && 0 < op2[0] < b && quotient != remainder
    requires 2 <= len1 <= |op1| && quotient.Length == |op1| && remainder.Length >= 1
    requires forall k :: len1 <= k < |op1| ==> op1[k] == 0
    modifies quotient, remainder
    ensures Divided(b, op1, op2, quotient[..])
    ensures restoreRemainder ==> Remains(b, op1, op2, quotient[..], remainder[..])
    ensures !restoreRemainder ==> remainder[..] == old(remainder[..])
  {
    hide Val;
    var carry := DivideByWord(b, op1, op2[0], quotient, len1);
    if restoreRemainder {
      SetWord(b, carry, remainder);
    }
  }

  /** The remainder words that long division leaves as they were. */
  ghost predicate StaleZero(op1: seq<nat>, remainder: seq<nat>) {
    forall k :: |op1| + 1 <= k < |remainder| ==> remainder[k] == 0
  }

  lemma {:induction false} StaleDecides(b: nat, op1: seq<nat>, op2: seq<nat>, quotient: seq<nat>, was: seq<nat>, remainder: seq<nat>, written: nat)
    requires b >= 1 && written == Min(|was|, |op1| + 1) && |was| == |remainder|
    requires Digits(b, remainder[..written]) && remainder[written..] == was[written..]
    requires Val(b, remainder[..written]) == Val(b, op1) - Val(b, op2) * Val(b, quotient)
    ensures Remains(b, op1, op2, quotient, remainder) <==> StaleZero(op1, was)
  {
    hide Val, Pow;
    forall k | written <= k < |was|
      ensures remainder[k] == was[k]
    {
      assert remainder[written..][k - written] == was[written..][k - written];
    }
    if StaleZero(op1, was) {
      QuotientPadded(b, remainder, written);
    } else {
      var k :| |op1| + 1 <= k < |was| && was[k] != 0;
      ValSplit(b, remainder, written);
      if Val(b, remainder[written..]) == 0 {
        ValZeroOnly(b, remainder[written..], k - written);
        assert false;
      }
      MulLe(1, Val(b, remainder[written..]), Pow(b, written));
    }
  }

  method DivideLong(w: nat, b: nat, op1: seq<nat>, op2: seq<nat>, len1: nat, len2: nat, quotient: array<nat>, remainder: array<nat>, restoreRemainder: bool)
    requires w >= 1 && b == Bits.Pow2(w) && b >= 2 && Digits(b, op1) && Digits(b, op2) && quotient != remainder
    requires quotient.Length == |op1| && remainder.Length == |op2|
    requires 2 <= len2 <= len1 <= |op1| && len2 <= |op2| && op2[len2 - 1] != 0
    requires forall k :: len1 <= k < |op1| ==> op1[k] == 0
    requires forall k :: len2 <= k < |op2| ==> op2[k] == 0
    modifies quotient, remainder
    ensures Divided(b, op1, op2, quotient[..])
    ensures restoreRemainder ==> (Remains(b, op1, op2, quotient[..], remainder[..]) <==> StaleZero(op1, old(remainder[..])))
    ensures !restoreRemainder ==> remainder[..] == old(remainder[..])
  {
    hide Val, Bits.Pow2;
    var dividend := new nat[|op1| + 1];
    CopyWords(b, op1, dividend, len1);
    var divisor := new nat[|op2|];
    CopyWords(b, op2, divisor, len2);
    ghost var was := remainder[..];
    assert Val(b, dividend[..]) == Val(b, op1);
    DivModInternal(w, b, dividend, divisor, quotient, remainder, len1, len2, restoreRemainder);
    assert remainder[0..] == remainder[..] && was[0..] == was;
    if restoreRemainder {
      StaleDecides(b, op1, op2, quotient[..], was, remainder[..], Min(|op2|, |op1| + 1));
    }
  }

  /** `div_mod_internal` on two unsigned storages; false stands for the failed VERIFY of a zero divisor.
      The remainder storage has the size of the divisor, and long division leaves its words above
      the dividend and one more as they were. */
  method DivMod(w: nat, b: nat, op1: seq<nat>, op2: seq<nat>, quotient: array<nat>, remainder: array<nat>, restoreRemainder: bool)
    returns (ok: bool)
    requires w >= 1 && b == Bits.Pow2(w) && b >= 2 && Digits(b, op1) && Digits(b, op2) && quotient != remainder
    requires quotient.Length == |op1| >= 1 && remainder.Length == |op2| >= 1
    modifies quotient, remainder
    ensures ok <==> Val(b, op2) != 0
    ensures ok ==> Divided(b, op1, op2, quotient[..])
    ensures !ok ==> quotient[..] == old(quotient[..])
    ensures !ok || !restoreRemainder ==> remainder[..] == old(remainder[..])
    ensures ok && restoreRemainder ==> (Remains(b, op1, op2, quotient[..], remainder[..]) <==>
      (2 <= Length(op2) <= Length(op1) ==> StaleZero(op1, old(remainder[..]))))
  {
    hide Val, Bits.Pow2, Divided, Remains, StaleZero, Length;
    var divisorLen := SignificantLength(b, op2);
    var dividendLen := SignificantLength(b, op1);
    if divisorLen == 0 {
      return false;
    }
    ok := true;
    if divisorLen == 1 {
      OneWord(b, op2);
    }
    if divisorLen == 1 && op2[0] == 1 {
      DivideByOne(b, op1, op2, quotient, remainder, restoreRemainder);
    } else if dividendLen < divisorLen {
      ShorterIsSmaller(b, op1, op2, dividendLen, divisorLen);
      DivideSmaller(b, op1, op2, dividendLen, quotient, remainder, restoreRemainder);
    } else if divisorLen == 1 && dividendLen == 1 {
      OneWord(b, op1);
      DivideWordByWord(b, op1, op2, quotient, remainder, restoreRemainder);
    } else if divisorLen == 1 {
      DivideBySingle(b, op1, op2, dividendLen, quotient, remainder, restoreRemainder);
    } else {
      DivideLong(w, b, op1, op2, dividendLen, divisorLen, quotient, remainder, restoreRemainder);
    }
  }

  /** A number of two words divided by itself in four words: the word that stood at the top of the remainder stays. */
  method StaleRemainder(w: nat, b: nat) returns (quotient: array<nat>, remainder: array<nat>)
    requires w >= 1 && b == Bits.Pow2(w) && b >= 2
    ensures Divided(b, [0, 1], [0, 1, 0, 0], quotient[..]) && quotient.Length == 2 && remainder.Length == 4
    ensures !Remains(b, [0, 1], [0, 1, 0, 0], quotient[..], remainder[..])
  {
    hide Val, Bits.Pow2, Divided, Remains, Length;
    var op1: seq<nat>, op2: seq<nat> := [0, 1], [0, 1, 0, 0];
    quotient, remainder := new nat[2], new nat[4];
    remainder[3] := 1;
    LengthIs(op1, 2);
    LengthIs(op2, 2);
    if Val(b, op2) == 0 {
      ValZeroOnly(b, op2, 1);
    }
    var ok := DivMod(w, b, op1, op2, quotient, remainder, true);
  }
}
