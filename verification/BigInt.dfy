/** `AK/BigIntBase.h`: arithmetic on integer storages. */
module BigInt {
  import opened Words
  import Bits

  function B2N(c: bool): int {
    if c then 1 else 0
  }

  /** The sign bit of a signed storage. */
  predicate IsNegative(b: nat, s: seq<nat>, signed: bool) {
    signed && s != [] && s[|s| - 1] >= b / 2
  }

  /** One turn of a counter that wraps at `p`. */
  ghost function Turn(c: bool, p: int): int {
    if c then p else 0
  }

  /** The integer in a storage: two's complement when signed. */
  ghost function SVal(b: nat, s: seq<nat>, signed: bool): int {
    Val(b, s) - Turn(IsNegative(b, s, signed), Pow(b, |s|))
  }

  function ExtendSign(b: nat, sign: bool): nat
    requires b >= 1
  {
    if sign then b - 1 else 0
  }

  // ---------- single words ----------

  method AddWords(b: nat, x: nat, y: nat, carry: bool) returns (out: nat, ncarry: bool)
    requires x < b && y < b
    ensures out < b && x + y + B2N(carry) == out + b * B2N(ncarry)
  {
    ncarry := x + y >= b;
    out := if ncarry then x + y - b else x + y;
    if carry {
      out := if out + 1 == b then 0 else out + 1;
      if out == 0 {
        ncarry := true;
      }
    }
  }

  method SubWords(b: nat, x: nat, y: nat, carry: bool) returns (out: nat, ncarry: bool)
    requires x < b && y < b
    ensures out < b && x - y - B2N(carry) == out - b * B2N(ncarry)
  {
    ncarry := x < y;
    out := if ncarry then b + x - y else x - y;
    if carry {
      if out == 0 {
        ncarry := true;
      }
      out := if out == 0 then b - 1 else out - 1;
    }
  }

  // ---------- addition ----------

  ghost function Extended(s: seq<nat>, fill: nat, n: nat): seq<nat> {
    seq(n, i requires 0 <= i < n => if i < |s| then s[i] else fill)
  }

  lemma {:induction false} ExtendedWords(s: seq<nat>, fill: nat, n: nat)
    ensures |Extended(s, fill, n)| == n
    ensures forall i :: 0 <= i < n ==> Extended(s, fill, n)[i] == WordAt(s, i, fill)
  {
  }

  /** Extending by the sign word adds one full turn when the number is negative. */
  lemma {:induction false} ExtendedVal(b: nat, s: seq<nat>, signed: bool, n: nat)
    requires b >= 1 && n >= |s|
    ensures Val(b, Extended(s, ExtendSign(b, IsNegative(b, s, signed)), n))
         == SVal(b, s, signed) + Turn(IsNegative(b, s, signed), Pow(b, n))
  {
    hide Val, Pow, Extended;
    var sign := IsNegative(b, s, signed);
    var f := ExtendSign(b, sign);
    if n == |s| {
      ExtendedNot(s, f);
    } else {
      var m := n - 1;
      ExtendedOnce(s, f, m);
      ValSnoc(b, Extended(s, f, m), f);
      ExtendedLength(s, f, m);
      ExtendedVal(b, s, signed, m);
      PowStep(b, m);
      if sign {
        Distribute(b, 1, Pow(b, m));
      }
    }
  }

  lemma {:induction false} ExtendedLength(s: seq<nat>, fill: nat, n: nat)
    ensures |Extended(s, fill, n)| == n
  {
  }

  lemma {:induction false} ExtendedNot(s: seq<nat>, fill: nat)
    ensures Extended(s, fill, |s|) == s
  {
  }

  lemma {:induction false} ExtendedOnce(s: seq<nat>, fill: nat, n: nat)
    requires |s| <= n
    ensures Extended(s, fill, n + 1) == Extended(s, fill, n) + [fill]
  {
  }

  lemma {:induction false} ExtendedPrefix(s: seq<nat>, fill: nat, n: nat)
    requires |s| <= n
    ensures s <= Extended(s, fill, n)
  {
  }

  /** Two numbers that are only fill words from `m` on. */
  lemma {:induction false} SameAbove(s: seq<nat>, t: seq<nat>, fill: nat, n: nat, m: nat)
    requires m <= n
    requires forall k :: m <= k < |s| ==> s[k] == fill
    requires forall k :: m <= k < |t| ==> t[k] == fill
    ensures Extended(s, fill, n)[m..] == Extended(t, fill, n)[m..]
  {
    var e, e' := Extended(s, fill, n), Extended(t, fill, n);
    assert forall k :: m <= k < n ==> e[k] == fill == e'[k];
  }

  /** One step of a carry chain, scaled to its place. */
  lemma {:induction false} AddStep(p: nat, b: nat, x: int, y: int, z: int, c: int, c': int)
    requires x + y + c == z + b * c'
    ensures x * p + y * p + c * p == z * p + c' * (p * b)
  {
    calc {
      z * p + c' * (p * b);
    ==  { Assoc(c', b, p); assert p * b == b * p; assert c' * b == b * c'; }
      z * p + (b * c') * p;
    ==  { Distribute(z, b * c', p); }
      (z + b * c') * p;
    ==
      (x + y + c) * p;
    ==  { Distribute(x + y, c, p); Distribute(x, y, p); }
      x * p + y * p + c * p;
    }
  }

  lemma {:induction false} SubStep(p: nat, b: nat, x: int, y: int, z: int, c: int, c': int)
    requires x - y - c == z - b * c'
    ensures x * p - y * p - c * p == z * p - c' * (p * b)
  {
    calc {
      z * p - c' * (p * b);
    ==  { Assoc(c', b, p); assert p * b == b * p; assert c' * b == b * c'; }
      z * p - (b * c') * p;
    ==  { Distribute(z, b * c', p); }
      (z - b * c') * p;
    ==
      (x - y - c) * p;
    ==  { Distribute(x - y, c, p); Distribute(x, y, p); }
      x * p - y * p - c * p;
    }
  }

  /** From the unsigned carry chain to the signed equation. */
  lemma {:induction false} AddEquation(p: nat, x: int, y: int, c0: int, z: int, s1: bool, s2: bool, c: bool, n: bool)
    requires (x + Turn(s1, p)) + (y + Turn(s2, p)) + c0 == z + B2N(c) * p
    ensures x + y + c0 == (z - Turn(n, p)) + (-B2N(s1) - B2N(s2) + B2N(c) + B2N(n)) * p
  {
  }

  lemma {:induction false} SubEquation(p: nat, x: int, y: int, c0: int, z: int, s1: bool, s2: bool, c: bool, n: bool)
    requires (x + Turn(s1, p)) - (y + Turn(s2, p)) - c0 == z - B2N(c) * p
    ensures x - y - c0 == (z - Turn(n, p)) + (-B2N(s1) + B2N(s2) - B2N(c) + B2N(n)) * p
  {
  }

  function WordAt(s: seq<nat>, i: nat, fill: nat): nat {
    if i < |s| then s[i] else fill
  }

  function WordOf(op: array<nat>, i: nat, fill: nat): nat
    reads op
  {
    if i < op.Length then op[i] else fill
  }

  /** The words from `i` on are still those of `s`: an operand may share its storage with the result. */
  ghost predicate Unread(op: array<nat>, s: seq<nat>, i: nat)
    reads op
  {
    op.Length == |s| && forall k :: i <= k < |s| ==> op[k] == s[k]
  }

  method AddLoop(b: nat, op1: array<nat>, fill1: nat, op2: array<nat>, fill2: nat, result: array<nat>, carry0: bool)
    returns (carry: bool)
    requires Digits(b, op1[..]) && Digits(b, op2[..]) && fill1 < b && fill2 < b
    modifies result
    ensures Digits(b, result[..])
    ensures Val(b, Extended(old(op1[..]), fill1, result.Length)) + Val(b, Extended(old(op2[..]), fill2, result.Length)) + B2N(carry0)
         == Val(b, result[..]) + B2N(carry) * Pow(b, result.Length)
  {
    hide Val, Pow, Extended;
    ghost var s1, s2 := op1[..], op2[..];
    ghost var e1, e2 := Extended(s1, fill1, result.Length), Extended(s2, fill2, result.Length);
    ExtendedWords(s1, fill1, result.Length);
    ExtendedWords(s2, fill2, result.Length);
    carry := carry0;
    assert e1[..0] == [] && e2[..0] == [] && result[..0] == [];
    ValZero(b, []);
    PowZero(b);
    for i := 0 to result.Length
      invariant Unread(op1, s1, i) && Unread(op2, s2, i) && Digits(b, result[..i])
      invariant Val(b, e1[..i]) + Val(b, e2[..i]) + B2N(carry0) == Val(b, result[..i]) + B2N(carry) * Pow(b, i)
    {
      var word1, word2 := WordOf(op1, i, fill1), WordOf(op2, i, fill2);
      ghost var before, c := result[..i], B2N(carry);
      result[i], carry := AddWords(b, word1, word2, carry);
      AddStep(Pow(b, i), b, word1, word2, result[i], c, B2N(carry));
      assert result[..i + 1] == before + [result[i]];
      ValSnoc(b, before, result[i]);
      PowStep(b, i);
      ValStep(b, e1, i);
      ValStep(b, e2, i);
    }
    assert e1[..result.Length] == e1 && e2[..result.Length] == e2 && result[..result.Length] == result[..];
  }

  method SubLoop(b: nat, op1: array<nat>, fill1: nat, op2: array<nat>, fill2: nat, result: array<nat>, carry0: bool)
    returns (carry: bool)
    requires Digits(b, op1[..]) && Digits(b, op2[..]) && fill1 < b && fill2 < b
    modifies result
    ensures Digits(b, result[..])
    ensures Val(b, Extended(old(op1[..]), fill1, result.Length)) - Val(b, Extended(old(op2[..]), fill2, result.Length)) - B2N(carry0)
         == Val(b, result[..]) - B2N(carry) * Pow(b, result.Length)
  {
    hide Val, Pow, Extended;
    ghost var s1, s2 := op1[..], op2[..];
    ghost var e1, e2 := Extended(s1, fill1, result.Length), Extended(s2, fill2, result.Length);
    ExtendedWords(s1, fill1, result.Length);
    ExtendedWords(s2, fill2, result.Length);
    carry := carry0;
    assert e1[..0] == [] && e2[..0] == [] && result[..0] == [];
    ValZero(b, []);
    PowZero(b);
    for i := 0 to result.Length
      invariant Unread(op1, s1, i) && Unread(op2, s2, i) && Digits(b, result[..i])
      invariant Val(b, e1[..i]) - Val(b, e2[..i]) - B2N(carry0) == Val(b, result[..i]) - B2N(carry) * Pow(b, i)
    {
      var word1, word2 := WordOf(op1, i, fill1), WordOf(op2, i, fill2);
      ghost var before, c := result[..i], B2N(carry);
      result[i], carry := SubWords(b, word1, word2, carry);
      SubStep(Pow(b, i), b, word1, word2, result[i], c, B2N(carry));
      assert result[..i + 1] == before + [result[i]];
      ValSnoc(b, before, result[i]);
      PowStep(b, i);
      ValStep(b, e1, i);
      ValStep(b, e2, i);
    }
    assert e1[..result.Length] == e1 && e2[..result.Length] == e2 && result[..result.Length] == result[..];
  }

  /** The integers that a storage of `n` words can hold. */
  ghost predicate Fits(b: nat, n: nat, signed: bool, v: int) {
    if signed && n > 0 then 0 <= 2 * v + Pow(b, n) && 2 * v < Pow(b, n) else 0 <= v < Pow(b, n)
  }

  lemma {:induction false} SValFits(b: nat, s: seq<nat>, signed: bool)
    requires b >= 2 && b % 2 == 0 && Digits(b, s)
    ensures Fits(b, |s|, signed, SVal(b, s, signed))
  {
    hide Val, Pow;
    ValBound(b, s);
    if signed && s != [] {
      var n: nat := |s| - 1;
      ValBound(b, s[..n]);
      PowStep(b, n);
      ValStep(b, s, n);
      assert s[..n + 1] == s;
      TopBitHalves(b, s[n], Val(b, s[..n]), Pow(b, n));
    }
  }

  /** The top bit of the top word tells the upper half from the lower. */
  lemma {:induction false} TopBitHalves(b: nat, x: nat, low: nat, p: nat)
    requires b % 2 == 0 && low < p
    ensures x >= b / 2 <==> 2 * (low + x * p) >= p * b
  {
    var h := b / 2;
    assert 2 * (h * p) == p * b by {
      Assoc(2, h, p);
    }
    MulLe(h, x, p);
    if x < h {
      MulLe(x + 1, h, p);
      Distribute(x, 1, p);
    }
  }

  /** With the remainder in range, the multiple is zero exactly when the whole is in range. */
  lemma {:induction false} ZeroIffFits(b: nat, n: nat, signed: bool, v: int, c: int, r: int)
    requires b >= 1 && v == c + r * Pow(b, n) && Fits(b, n, signed, c)
    ensures r == 0 <==> Fits(b, n, signed, v)
  {
    hide Pow;
    var p := Pow(b, n);
    if r >= 1 {
      MulLe(1, r, p);
    } else if r <= -1 {
      MulLe(1, -r, p);
      assert r * p == -((-r) * p);
    }
  }

  /** The sum or difference without any limit of size. */
  ghost function Exact(b: nat, op1: seq<nat>, signed1: bool, op2: seq<nat>, signed2: bool, subtract: bool, carry: bool): int {
    if subtract then SVal(b, op1, signed1) - SVal(b, op2, signed2) - B2N(carry)
    else SVal(b, op1, signed1) + SVal(b, op2, signed2) + B2N(carry)
  }

  /** The documented equation of the source: with `r` the value returned,
      a + b * (-1)^subtract = c + r * 2^(result size * word size); and r is zero iff nothing overflowed. */
  method Add(b: nat, op1: array<nat>, signed1: bool, op2: array<nat>, signed2: bool, subtract: bool,
      result: array<nat>, signed: bool, carry0: bool) returns (r: int)
    requires b >= 2 && b % 2 == 0 && Digits(b, op1[..]) && Digits(b, op2[..])
    requires result.Length >= op1.Length && result.Length >= op2.Length
    modifies result
    ensures Digits(b, result[..])
    ensures var exact := Exact(b, old(op1[..]), signed1, old(op2[..]), signed2, subtract, carry0);
            && exact == SVal(b, result[..], signed) + r * Pow(b, result.Length)
            && (r == 0 <==> Fits(b, result.Length, signed, exact))
  {
    hide Val, Pow, Extended, Fits;
    ghost var p, s1, s2 := Pow(b, result.Length), op1[..], op2[..];
    var sign1, sign2 := IsNegative(b, op1[..], signed1), IsNegative(b, op2[..], signed2);
    var fill1, fill2 := ExtendSign(b, sign1), ExtendSign(b, sign2);
    ExtendedVal(b, s1, signed1, result.Length);
    ExtendedVal(b, s2, signed2, result.Length);
    if !subtract {
      var carry := AddLoop(b, op1, fill1, op2, fill2, result, carry0);
      var negative := IsNegative(b, result[..], signed);
      r := -B2N(sign1) - B2N(sign2) + B2N(carry) + B2N(negative);
      AddEquation(p, SVal(b, s1, signed1), SVal(b, s2, signed2), B2N(carry0), Val(b, result[..]), sign1, sign2, carry, negative);
    } else {
      var carry := SubLoop(b, op1, fill1, op2, fill2, result, carry0);
      var negative := IsNegative(b, result[..], signed);
      r := -B2N(sign1) + B2N(sign2) - B2N(carry) + B2N(negative);
      SubEquation(p, SVal(b, s1, signed1), SVal(b, s2, signed2), B2N(carry0), Val(b, result[..]), sign1, sign2, carry, negative);
    }
    SValFits(b, result[..], signed);
    ZeroIffFits(b, result.Length, signed, Exact(b, s1, signed1, s2, signed2, subtract, carry0), SVal(b, result[..], signed), r);
  }

  /** Negation modulo 2^(size * word size), in place or not; the carry says whether the operand was nonzero. */
  method Negate(b: nat, op: array<nat>, result: array<nat>) returns (carry: bool)
    requires b >= 2 && Digits(b, op[..]) && result.Length == op.Length
    modifies result
    ensures Digits(b, result[..]) && (carry <==> Val(b, old(op[..])) != 0)
    ensures Val(b, result[..]) == if carry then Pow(b, result.Length) - Val(b, old(op[..])) else 0
  {
    hide Val, Pow;
    ghost var s := op[..];
    carry := false;
    assert s[..0] == [] && result[..0] == [];
    ValZero(b, []);
    PowZero(b);
    for i := 0 to result.Length
      invariant Unread(op, s, i) && Digits(b, result[..i])
      invariant 0 - Val(b, s[..i]) == Val(b, result[..i]) - B2N(carry) * Pow(b, i)
    {
      var word := op[i];
      ghost var before, c := result[..i], B2N(carry);
      result[i], carry := SubWords(b, 0, word, carry);
      SubStep(Pow(b, i), b, 0, word, result[i], c, B2N(carry));
      assert result[..i + 1] == before + [result[i]];
      ValSnoc(b, before, result[i]);
      PowStep(b, i);
      ValStep(b, s, i);
    }
    assert s[..result.Length] == s && result[..result.Length] == result[..];
    ValBound(b, result[..]);
  }

  // ---------- comparison ----------

  /** The highest differing word decides. */
  lemma {:induction false} TopDiffers(b: nat, s: seq<nat>, t: seq<nat>, i: nat)
    requires |s| == |t| && i < |s| && Digits(b, s) && Digits(b, t)
    requires s[i + 1..] == t[i + 1..] && s[i] < t[i]
    ensures Val(b, s) < Val(b, t)
  {
    ValSplit(b, s, i + 1);
    ValSplit(b, t, i + 1);
    ValStep(b, s, i);
    ValStep(b, t, i);
    ValBound(b, s[..i]);
    MulLe(s[i] + 1, t[i], Pow(b, i));
    Distribute(s[i], 1, Pow(b, i));
  }

  /** A number that is not all fill words lies on the inner side of one that is. */
  lemma {:induction false} FillExtreme(b: nat, s: seq<nat>, sign: bool, k: nat)
    requires b >= 2 && Digits(b, s) && k < |s| && s[k] != ExtendSign(b, sign)
    ensures var full := seq(|s|, i => ExtendSign(b, sign));
            if sign then Val(b, s) < Val(b, full) else Val(b, s) > Val(b, full)
  {
    var f := ExtendSign(b, sign);
    var full := seq(|s|, i => f);
    var n := |s| - 1;
    if s[n] != f {
      assert s[n + 1..] == full[n + 1..];
      if sign {
        TopDiffers(b, s, full, n);
      } else {
        TopDiffers(b, full, s, n);
      }
    } else {
      FillExtreme(b, s[..n], sign, k);
      assert full[..n] == seq(n, i => f);
    }
  }

  /** Words of one operand above the size of the other. */
  method HighWordsDiffer(b: nat, op: seq<nat>, sign: bool, low: nat) returns (differ: bool)
    requires b >= 2 && Digits(b, op) && low <= |op|
    ensures differ <==> exists k :: low <= k < |op| && op[k] != ExtendSign(b, sign)
  {
    differ := false;
    var i := |op|;
    while i > low
      invariant low <= i <= |op|
      invariant differ <==> exists k :: i <= k < |op| && op[k] != ExtendSign(b, sign)
    {
      i := i - 1;
      if op[i] != ExtendSign(b, sign) {
        differ := true;
      }
    }
  }

  /** When the longer operand has a word that is not sign extension, it lies further out. */
  lemma {:induction false} LongerIsFurther(b: nat, op: seq<nat>, other: seq<nat>, sign: bool, k: nat)
    requires b >= 2 && Digits(b, op) && Digits(b, other)
    requires |other| <= k < |op| && op[k] != ExtendSign(b, sign)
    ensures var e := Extended(other, ExtendSign(b, sign), |op|);
            if sign then Val(b, op) < Val(b, e) else Val(b, op) > Val(b, e)
  {
    var n := |other|;
    var e := Extended(other, ExtendSign(b, sign), |op|);
    var high := op[n..];
    FillExtreme(b, high, sign, k - n);
    assert e[n..] == seq(|high|, i => ExtendSign(b, sign));
    assert e[..n] == other;
    ValSplit(b, op, n);
    ValSplit(b, e, n);
    ValBound(b, other);
    ValBound(b, op[..n]);
    if sign {
      MulLe(Val(b, high) + 1, Val(b, e[n..]), Pow(b, n));
      Distribute(Val(b, high), 1, Pow(b, n));
    } else {
      MulLe(Val(b, e[n..]) + 1, Val(b, high), Pow(b, n));
      Distribute(Val(b, e[n..]), 1, Pow(b, n));
    }
  }

  lemma {:induction false} SignOrder(b: nat, s: seq<nat>, signed: bool)
    requires b >= 2 && Digits(b, s)
    ensures IsNegative(b, s, signed) <==> SVal(b, s, signed) < 0
  {
    ValBound(b, s);
  }

  /** The words both operands have, from the top down. */
  method CompareLow(b: nat, op1: seq<nat>, op2: seq<nat>, inequality: bool, ghost e1: seq<nat>, ghost e2: seq<nat>)
    returns (r: int)
    requires Digits(b, e1) && Digits(b, e2) && |e1| == |e2| && op1 <= e1 && op2 <= e2
    requires var n := if |op1| > |op2| then |op2| else |op1|; e1[n..] == e2[n..]
    ensures -1 <= r <= 1
    ensures r == 0 <==> Val(b, e1) == Val(b, e2)
    ensures !inequality ==> (r < 0 <==> Val(b, e1) < Val(b, e2))
  {
    var i: nat := if |op1| > |op2| then |op2| else |op1|;
    while i > 0
      invariant i <= |op1| && i <= |op2|
      invariant e1[i..] == e2[i..]
    {
      i := i - 1;
      assert op1[i] == e1[i] && op2[i] == e2[i];
      assert e1[i + 1..] == e2[i + 1..];
      if op1[i] < op2[i] {
        TopDiffers(b, e1, e2, i);
        return if inequality then 1 else -1;
      }
      if op1[i] > op2[i] {
        TopDiffers(b, e2, e1, i);
        return 1;
      }
      assert e1[i..] == [e1[i]] + e1[i + 1..] && e2[i..] == [e2[i]] + e2[i + 1..];
    }
    assert e1[0..] == e1 && e2[0..] == e2;
    return 0;
  }

  method Compare(b: nat, op1: seq<nat>, signed1: bool, op2: seq<nat>, signed2: bool, inequality: bool) returns (r: int)
    requires b >= 2 && Digits(b, op1) && Digits(b, op2)
    ensures -1 <= r <= 1
    ensures r == 0 <==> SVal(b, op1, signed1) == SVal(b, op2, signed2)
    ensures !inequality ==> (r < 0 <==> SVal(b, op1, signed1) < SVal(b, op2, signed2))
  {
    hide Val, Pow, Extended;
    var sign1, sign2 := IsNegative(b, op1, signed1), IsNegative(b, op2, signed2);
    SignOrder(b, op1, signed1);
    SignOrder(b, op2, signed2);
    if sign1 != sign2 {
      return if sign1 then -1 else 1;
    }
    ghost var f := ExtendSign(b, sign1);
    ghost var n := if |op1| > |op2| then |op1| else |op2|;
    ghost var e1, e2 := Extended(op1, f, n), Extended(op2, f, n);
    ExtendedVal(b, op1, signed1, n);
    ExtendedVal(b, op2, signed2, n);
    ExtendedWords(op1, f, n);
    ExtendedWords(op2, f, n);
    ExtendedPrefix(op1, f, n);
    ExtendedPrefix(op2, f, n);
    var differ := false;
    if |op1| > |op2| {
      differ := HighWordsDiffer(b, op1, sign1, |op2|);
    } else if |op1| < |op2| {
      differ := HighWordsDiffer(b, op2, sign1, |op1|);
    }
    if differ {
      if |op1| > |op2| {
        ghost var k :| |op2| <= k < |op1| && op1[k] != f;
        LongerIsFurther(b, op1, op2, sign1, k);
        assert e1 == op1;
      } else {
        ghost var k :| |op1| <= k < |op2| && op2[k] != f;
        LongerIsFurther(b, op2, op1, sign1, k);
        assert e2 == op2;
      }
      return if (|op1| > |op2|) != sign1 then 1 else -1;
    }
    SameAbove(op1, op2, f, n, if |op1| > |op2| then |op2| else |op1|);
    r := CompareLow(b, op1, op2, inequality, e1, e2);
  }
}
