/** Numbers as little-endian sequences of words. */
module Words {
  import Bits

  function Pow(b: nat, n: nat): (r: nat)
    ensures b >= 1 ==> r >= 1
  {
    if n == 0 then 1 else Pow(b, n - 1) * b
  }

  /** The value of the words `s` in base `b`, least significant word first. */
  function Val(b: nat, s: seq<nat>): nat {
    if s == [] then 0 else Val(b, s[..|s| - 1]) + s[|s| - 1] * Pow(b, |s| - 1)
  }

  ghost predicate Digits(b: nat, s: seq<nat>) {
    forall i :: 0 <= i < |s| ==> s[i] < b
  }

  lemma {:induction false} PowAdd(b: nat, m: nat, n: nat)
    ensures Pow(b, m + n) == Pow(b, m) * Pow(b, n)
  {
    if n > 0 {
      PowAdd(b, m, n - 1);
      assert Pow(b, m + n) == Pow(b, m + (n - 1)) * b;
      Assoc(Pow(b, m), Pow(b, n - 1), b);
    }
  }

  lemma {:induction false} PowOfPow2(w: nat, n: nat)
    ensures Pow(Bits.Pow2(w), n) == Bits.Pow2(w * n)
  {
    if n > 0 {
      PowOfPow2(w, n - 1);
      Bits.Pow2Add(w * (n - 1), w);
      assert w * (n - 1) + w == w * n;
    }
  }

  lemma {:induction false} PowZero(b: nat)
    ensures Pow(b, 0) == 1
  {
  }

  lemma {:induction false} PowStep(b: nat, n: nat)
    ensures Pow(b, n + 1) == Pow(b, n) * b
  {
  }

  lemma {:induction false} Assoc(x: int, y: int, z: int)
    ensures (x * y) * z == x * (y * z)
  {
  }

  lemma {:induction false} Distribute(x: int, y: int, z: int)
    ensures (x + y) * z == x * z + y * z
    ensures (x - y) * z == x * z - y * z
  {
  }

  lemma {:induction false} MulLe(x: nat, y: nat, z: nat)
    ensures x <= y ==> x * z <= y * z
  {
    if x <= y {
      Distribute(y - x, x, z);
    }
  }

  lemma {:induction false} ScaleLe(k: int, x: int, y: int)
    requires k >= 0 && x <= y
    ensures k * x <= k * y
  {
    assert k * y - k * x == k * (y - x);
  }

  lemma {:induction false} MulLt(x: int, y: int, z: int)
    requires z > 0
    ensures x < y <==> x * z < y * z
  {
  }

  lemma {:induction false} Halves(b: nat, x: nat)
    requires b >= 1
    ensures 0 <= x % b < b && x / b >= 0 && x == x % b + b * (x / b)
  {
  }

  /** Scaled down by a factor `q`, a word of base `m * q` splits at the same place. */
  lemma {:induction false} ScaledDown(x: nat, m: nat, q: nat)
    requires m >= 1 && q >= 1
    ensures (x * m) / (q * m) == x / q && (x * m) % (q * m) == (x % q) * m
  {
    var a, r := x / q, x % q;
    assert x == a * q + r;
    Distribute(a * q, r, m);
    Assoc(a, q, m);
    MulLe(r + 1, q, m);
    Distribute(r, 1, m);
    Bits.DivModUnique(x * m, q * m, a, r * m);
  }

  /** One more word at the top. */
  lemma {:induction false} ValSnoc(b: nat, s: seq<nat>, x: nat)
    ensures Val(b, s + [x]) == Val(b, s) + x * Pow(b, |s|)
  {
    assert (s + [x])[..|s|] == s;
  }

  lemma {:induction false} ValStep(b: nat, s: seq<nat>, i: nat)
    requires i < |s|
    ensures Val(b, s[..i + 1]) == Val(b, s[..i]) + s[i] * Pow(b, i)
  {
    assert s[..i + 1] == s[..i] + [s[i]];
    ValSnoc(b, s[..i], s[i]);
  }

  /** High words above low words. */
  lemma {:induction false} ValConcat(b: nat, s: seq<nat>, t: seq<nat>)
    ensures Val(b, s + t) == Val(b, s) + Val(b, t) * Pow(b, |s|)
  {
    if t == [] {
      assert s + t == s;
    } else {
      var n := |t| - 1;
      var u, x := t[..n], t[n];
      assert s + t == (s + u) + [x] && t == u + [x];
      ValSnoc(b, s + u, x);
      ValSnoc(b, u, x);
      ValConcat(b, s, u);
      PowAdd(b, |s|, n);
      Assoc(x, Pow(b, n), Pow(b, |s|));
      Distribute(Val(b, u), x * Pow(b, n), Pow(b, |s|));
    }
  }

  lemma {:induction false} ValSplit(b: nat, s: seq<nat>, i: nat)
    requires i <= |s|
    ensures Val(b, s) == Val(b, s[..i]) + Val(b, s[i..]) * Pow(b, i)
  {
    assert s == s[..i] + s[i..];
    ValConcat(b, s[..i], s[i..]);
  }

  lemma {:induction false} ValBound(b: nat, s: seq<nat>)
    requires Digits(b, s)
    ensures Val(b, s) < Pow(b, |s|)
  {
    if s != [] {
      var n := |s| - 1;
      ValBound(b, s[..n]);
      MulLe(s[n] + 1, b, Pow(b, n));
      Distribute(s[n], 1, Pow(b, n));
    }
  }

  lemma {:induction false} ValZero(b: nat, s: seq<nat>)
    requires forall i :: 0 <= i < |s| ==> s[i] == 0
    ensures Val(b, s) == 0
  {
    if s != [] {
      ValZero(b, s[..|s| - 1]);
    }
  }

  lemma {:induction false} ValZeroOnly(b: nat, s: seq<nat>, i: nat)
    requires b >= 1 && Val(b, s) == 0 && i < |s|
    ensures s[i] == 0
  {
    var n := |s| - 1;
    if s[n] >= 1 {
      MulLe(1, s[n], Pow(b, n));
      assert false;
    }
    if i < n {
      ValZeroOnly(b, s[..n], i);
    }
  }

  /** Zero words on top change nothing. */
  lemma {:induction false} ValPadded(b: nat, s: seq<nat>, i: nat)
    requires i <= |s| && forall k :: i <= k < |s| ==> s[k] == 0
    ensures Val(b, s) == Val(b, s[..i])
  {
    ValSplit(b, s, i);
    ValZero(b, s[i..]);
  }

  /** The lowest word and the rest. */
  lemma {:induction false} ValCons(b: nat, x: nat, s: seq<nat>)
    ensures Val(b, [x] + s) == x + b * Val(b, s)
  {
    hide Val, Pow;
    ValConcat(b, [x], s);
    ValSnoc(b, [], x);
    ValZero(b, []);
    PowZero(b);
    PowStep(b, 0);
    assert [] + [x] == [x];
  }
}
