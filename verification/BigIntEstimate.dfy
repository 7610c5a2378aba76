/** `AK/BigIntBase.h`: how Algorithm D estimates one word of a quotient. */
module BigIntEstimate {
  import opened Words
  import opened BigInt
  import opened BigIntShift

  // ---------- D3: the estimate of one quotient word ----------

  /** `dword(low, high) / divisor`; the quotient fits a word because `high < divisor`. */
  method DivModWords(b: nat, low: nat, high: nat, divisor: nat) returns (quotient: nat, remainder: nat)
    requires low < b && high < divisor
    ensures quotient < b && remainder < divisor && quotient * divisor + remainder == high * b + low
  {
    ghost var x := high * b + low;
    DwordBelow(b, low, high, divisor);
    QuotientBelow(x, divisor, b);
    remainder := (high * b + low) % divisor;
    quotient := (high * b + low) / divisor;
  }

  lemma {:induction false} DwordBelow(b: nat, low: nat, high: nat, divisor: nat)
    requires low < b && high < divisor
    ensures 0 <= high * b + low < b * divisor
  {
    LeftRoom(high, divisor, b);
  }

  /** The correction test on three dividend words and two divisor words. */
  predicate TooLarge(b: nat, qhat: nat, v2: nat, rhat: nat, u0: nat) {
    qhat * v2 > rhat * b + u0
  }

  /** `rhat` is what the two leading words leave beside `qhat` times the leading divisor word. */
  ghost predicate Leaves(b: nat, v1: nat, u2: nat, u1: nat, qhat: nat, rhat: nat) {
    qhat * v1 + rhat == u2 * b + u1
  }

  /** `q` times the two leading divisor words is at most the three leading words. */
  ghost predicate AtMost(b: nat, v1: nat, v2: nat, u2: nat, u1: nat, u0: nat, q: nat) {
    q * (v1 * b + v2) <= (u2 * b + u1) * b + u0
  }

  /** The test compares the estimate against all three words. */
  lemma {:induction false} TestMeans(b: nat, v1: nat, v2: nat, u2: nat, u1: nat, u0: nat, qhat: nat, rhat: nat)
    requires Leaves(b, v1, u2, u1, qhat, rhat)
    ensures TooLarge(b, qhat, v2, rhat, u0) <==> !AtMost(b, v1, v2, u2, u1, u0, qhat)
  {
    Distribute(v1 * b, v2, qhat);
    Assoc(qhat, v1, b);
    Distribute(qhat * v1, rhat, b);
  }

  /** The estimate from two words and one is not too small. */
  lemma {:induction false} FirstEstimate(b: nat, v1: nat, v2: nat, u2: nat, u1: nat, u0: nat, qhat: nat, rhat: nat)
    requires Leaves(b, v1, u2, u1, qhat, rhat) && rhat < v1 && u0 < b
    ensures !AtMost(b, v1, v2, u2, u1, u0, qhat + 1)
  {
    Distribute(qhat, 1, v1);
    LeftRoom(u2 * b + u1, (qhat + 1) * v1, b);
    Distribute(v1 * b, v2, qhat + 1);
    Assoc(qhat + 1, v1, b);
  }

  lemma {:induction false} LargeRemainder(b: nat, qhat: nat, v2: nat, rhat: nat, u0: nat)
    requires qhat < b && v2 < b && rhat >= b
    ensures !TooLarge(b, qhat, v2, rhat, u0)
  {
    MulLe(qhat, b, v2);
    MulLe(v2, b, b);
    MulLe(b, rhat, b);
  }

  lemma {:induction false} Lowered(b: nat, v1: nat, u2: nat, u1: nat, qhat: nat, rhat: nat)
    requires Leaves(b, v1, u2, u1, qhat, rhat) && qhat >= 1
    ensures Leaves(b, v1, u2, u1, qhat - 1, rhat + v1)
  {
    Distribute(qhat, 1, v1);
  }

  lemma {:induction false} TooLargeIsPositive(b: nat, qhat: nat, v2: nat, rhat: nat, u0: nat)
    requires TooLarge(b, qhat, v2, rhat, u0)
    ensures qhat >= 1
  {
  }

  /** Below the top word of the divisor the estimate is the exact quotient of three words by two. */
  method EstimateBelow(b: nat, v1: nat, v2: nat, u2: nat, u1: nat, u0: nat) returns (qhat: nat)
    requires v1 < b <= 2 * v1 && v2 < b && u2 < v1 && u1 < b && u0 < b
    ensures qhat < b && AtMost(b, v1, v2, u2, u1, u0, qhat) && !AtMost(b, v1, v2, u2, u1, u0, qhat + 1)
  {
    hide TooLarge, AtMost;
    var rhat;
    qhat, rhat := DivModWords(b, u1, u2, v1);
    assert Leaves(b, v1, u2, u1, qhat, rhat);
    hide Leaves;
    FirstEstimate(b, v1, v2, u2, u1, u0, qhat, rhat);
    TestMeans(b, v1, v2, u2, u1, u0, qhat, rhat);
    if TooLarge(b, qhat, v2, rhat, u0) {
      TooLargeIsPositive(b, qhat, v2, rhat, u0);
      Lowered(b, v1, u2, u1, qhat, rhat);
      qhat := qhat - 1;
      ghost var exact := rhat + v1;
      TestMeans(b, v1, v2, u2, u1, u0, qhat, exact);
      var carry;
      rhat, carry := AddWords(b, rhat, v1, false);
      if carry {
        LargeRemainder(b, qhat, v2, exact, u0);
      }
      if !carry && TooLarge(b, qhat, v2, rhat, u0) {
        TooLargeIsPositive(b, qhat, v2, rhat, u0);
        Lowered(b, v1, u2, u1, qhat, exact);
        qhat := qhat - 1;
        TestMeans(b, v1, v2, u2, u1, u0, qhat, exact + v1);
        LargeRemainder(b, qhat, v2, exact + v1, u0);
      }
    }
  }

  method EstimateQuotient(b: nat, v1: nat, v2: nat, u2: nat, u1: nat, u0: nat) returns (qhat: nat)
    requires v1 < b <= 2 * v1 && v2 < b && u2 <= v1 && u1 < b && u0 < b
    ensures qhat < b
    ensures u2 == v1 ==> qhat == b - 1
    ensures u2 < v1 ==> qhat * (v1 * b + v2) <= (u2 * b + u1) * b + u0 < (qhat + 1) * (v1 * b + v2)
  {
    if u2 == v1 {
      qhat := b - 1;
    } else {
      qhat := EstimateBelow(b, v1, v2, u2, u1, u0);
    }
  }

  lemma {:induction false} TimesParts(k: nat, high: nat, p: nat, low: nat)
    ensures k * (high * p + low) == (k * high) * p + k * low
  {
    Distribute(high * p, low, k);
    Assoc(k, high, p);
  }

  lemma {:induction false} ProductLe(x: nat, x': nat, y: nat, y': nat)
    requires x <= x' && y <= y'
    ensures x * y <= x' * y'
  {
    MulLe(x, x', y);
    MulLe(y, y', x');
  }

  /** An estimate that is not too small on the leading words is not too small. */
  lemma {:induction false} EstimateUpper(p: nat, v12: nat, vl: nat, u3: nat, ul: nat, k: nat)
    requires ul < p && u3 < k * v12
    ensures u3 * p + ul < k * (v12 * p + vl)
  {
    TimesParts(k, v12, p, vl);
    LeftRoom(u3, k * v12, p);
    assert k * vl >= 0;
  }

  /** An estimate that is not too large on the leading words is at most one too large. */
  lemma {:induction false} EstimateLower(b: nat, p: nat, v12: nat, vl: nat, u3: nat, ul: nat, qhat: nat)
    requires vl < p && v12 >= b && qhat < b && qhat * v12 <= u3
    ensures qhat * (v12 * p + vl) <= (u3 * p + ul) + (v12 * p + vl)
  {
    TimesParts(qhat, v12, p, vl);
    MulLe(qhat * v12, u3, p);
    ProductLe(qhat, v12, vl, p);
  }

  /** The same when the top words agree and the test is skipped. */
  lemma {:induction false} EstimateAtTop(b: nat, p: nat, v1: nat, v2: nat, vl: nat, u1: nat, u0: nat, ul: nat)
    requires v1 < b <= 2 * v1 && v2 < b && vl < p && b >= 2
    ensures (b - 1) * ((v1 * b + v2) * p + vl)
         <= (((v1 * b + u1) * b + u0) * p + ul) + ((v1 * b + v2) * p + vl)
  {
    var v, top, u := (v1 * b + v2) * p + vl, (v1 + 1) * b, (v1 * b + u1) * b + u0;
    assert v <= top * p by {
      DivisorBelow(b, p, v1, v2, vl);
    }
    assert (b - 2) * top <= u by {
      TimesTop(b, v1);
      TopWordsAtLeast(b, v1, u1, u0);
    }
    AtTopNumbers(b - 2, v, top, p, u, ul);
  }

  lemma {:induction false} AtTopNumbers(k: int, v: int, top: int, p: int, u: int, ul: int)
    requires k >= 0 && p >= 0 && ul >= 0 && v <= top * p && k * top <= u
    ensures (k + 1) * v <= (u * p + ul) + v
  {
    var t := top * p;
    Distribute(k, 1, v);
    ScaleLe(k, v, t);
    Assoc(k, top, p);
    var kt := k * top;
    ScaleLe(p, kt, u);
  }

  lemma {:induction false} DivisorBelow(b: nat, p: nat, v1: nat, v2: nat, vl: nat)
    requires v2 < b && vl < p
    ensures (v1 * b + v2) * p + vl <= ((v1 + 1) * b) * p
  {
    Distribute(v1, 1, b);
    LeftRoom(v1 * b + v2, (v1 + 1) * b, p);
  }

  lemma {:induction false} TimesTop(b: nat, v1: nat)
    requires v1 < b <= 2 * v1 && b >= 2
    ensures (b - 2) * ((v1 + 1) * b) <= (v1 * b) * b
  {
    Assoc(b - 2, v1 + 1, b);
    Distribute(b, 2, v1 + 1);
    MulLe((b - 2) * (v1 + 1), v1 * b, b);
  }

  lemma {:induction false} TopWordsAtLeast(b: nat, v1: nat, u1: nat, u0: nat)
    ensures (v1 * b) * b <= (v1 * b + u1) * b + u0
  {
    Distribute(v1 * b, u1, b);
    assert u1 * b >= 0;
  }

  // ---------- the words of a window ----------

  lemma {:induction false} TopTwo(b: nat, s: seq<nat>, n: nat)
    requires |s| == n + 2
    ensures Val(b, s) == (s[n + 1] * b + s[n]) * Pow(b, n) + Val(b, s[..n])
  {
    hide Val, Pow;
    ValStep(b, s, n + 1);
    ValStep(b, s, n);
    PowStep(b, n);
    assert s[..n + 2] == s;
    Distribute(s[n + 1] * b, s[n], Pow(b, n));
    Assoc(s[n + 1], b, Pow(b, n));
  }

  lemma {:induction false} TopThree(b: nat, s: seq<nat>, n: nat)
    requires |s| == n + 3
    ensures Val(b, s) == ((s[n + 2] * b + s[n + 1]) * b + s[n]) * Pow(b, n) + Val(b, s[..n])
  {
    hide Val;
    TopTwo(b, s, n + 1);
    ValStep(b, s, n);
    PowStep(b, n);
    var high := s[n + 2] * b + s[n + 1];
    Assoc(high, b, Pow(b, n));
    Distribute(high * b, s[n], Pow(b, n));
  }

  /** A smaller window has no larger top word. */
  lemma {:induction false} TopAtMost(b: nat, s: seq<nat>, t: seq<nat>)
    requires b >= 1 && |s| == |t| >= 1 && Digits(b, t) && Val(b, s) < Val(b, t)
    ensures s[|s| - 1] <= t[|t| - 1]
  {
    var n := |s| - 1;
    var p := Pow(b, n);
    ValBound(b, t[..n]);
    LeftRoom(t[n], t[n] + 1, p);
    MulLt(s[n], t[n] + 1, p);
  }

  /** The estimate for a window is the quotient or one more. */
  lemma {:induction false} EstimateFits(b: nat, u: seq<nat>, v: seq<nat>, qhat: nat)
    requires b >= 2 && Digits(b, u) && Digits(b, v) && |u| == |v| + 1 && |v| >= 2 && qhat < b
    requires b <= 2 * v[|v| - 1] && Val(b, u[1..]) < Val(b, v) && u[|v|] <= v[|v| - 1]
    requires var n := |v|; u[n] == v[n - 1] ==> qhat == b - 1
    requires var n := |v|; u[n] < v[n - 1] ==>
      qhat * (v[n - 1] * b + v[n - 2]) <= (u[n] * b + u[n - 1]) * b + u[n - 2] < (qhat + 1) * (v[n - 1] * b + v[n - 2])
    ensures Val(b, u) < (qhat + 1) * Val(b, v)
    ensures qhat * Val(b, v) <= Val(b, u) + Val(b, v)
  {
    hide Val, Pow;
    var n: nat := |v| - 2;
    var p := Pow(b, n);
    TopTwo(b, v, n);
    TopThree(b, u, n);
    ValBound(b, v[..n]);
    ValBound(b, u[..n]);
    WindowBelow(b, u, v);
    EstimateNumbers(b, p, v[n + 1], v[n], Val(b, v[..n]), u[n + 2], u[n + 1], u[n], Val(b, u[..n]), qhat);
  }

  lemma {:induction false} EstimateNumbers(b: nat, p: nat, v1: nat, v2: nat, vl: nat, u2: nat, u1: nat, u0: nat, ul: nat, qhat: nat)
    requires v1 < b <= 2 * v1 && v2 < b && b >= 2 && vl < p && ul < p && u2 <= v1 && qhat < b
    requires ((u2 * b + u1) * b + u0) * p + ul < b * ((v1 * b + v2) * p + vl)
    requires u2 == v1 ==> qhat == b - 1
    requires u2 < v1 ==> qhat * (v1 * b + v2) <= (u2 * b + u1) * b + u0 < (qhat + 1) * (v1 * b + v2)
    ensures ((u2 * b + u1) * b + u0) * p + ul < (qhat + 1) * ((v1 * b + v2) * p + vl)
    ensures qhat * ((v1 * b + v2) * p + vl) <= (((u2 * b + u1) * b + u0) * p + ul) + ((v1 * b + v2) * p + vl)
  {
    if u2 == v1 {
      EstimateAtTop(b, p, v1, v2, vl, u1, u0, ul);
    } else {
      EstimateProper(b, p, v1 * b + v2, vl, (u2 * b + u1) * b + u0, ul, qhat) by {
        MulLe(1, v1, b);
      }
    }
  }

  lemma {:induction false} EstimateProper(b: nat, p: nat, v12: nat, vl: nat, u3: nat, ul: nat, qhat: nat)
    requires vl < p && ul < p && v12 >= b && qhat < b && qhat * v12 <= u3 < (qhat + 1) * v12
    ensures u3 * p + ul < (qhat + 1) * (v12 * p + vl)
    ensures qhat * (v12 * p + vl) <= (u3 * p + ul) + (v12 * p + vl)
  {
    EstimateUpper(p, v12, vl, u3, ul, qhat + 1);
    EstimateLower(b, p, v12, vl, u3, ul, qhat);
  }

  lemma {:induction false} WindowBelow(b: nat, u: seq<nat>, v: seq<nat>)
    requires u != [] && Digits(b, u) && Val(b, u[1..]) < Val(b, v)
    ensures Val(b, u) < b * Val(b, v)
  {
    assert u == [u[0]] + u[1..];
    ValCons(b, u[0], u[1..]);
    LeftRoom(Val(b, u[1..]), Val(b, v), b);
  }
}
