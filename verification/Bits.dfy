/** Bitwise operations on natural numbers, as the machine words of AK use them. */
module Bits {

  function Pow2(k: nat): (r: nat)
    ensures r >= 1
  {
    if k == 0 then 1 else 2 * Pow2(k - 1)
  }

  function Quot(x: nat, m: nat): nat
    requires m >= 1
  {
    x / m
  }

  function Rem(x: nat, m: nat): nat
    requires m >= 1
  {
    x % m
  }

  lemma {:induction false} QuotRem(x: nat, m: nat)
    requires m >= 1
    ensures x == Quot(x, m) * m + Rem(x, m) && Rem(x, m) < m
  {
  }

  function And(x: nat, y: nat): (r: nat)
    ensures r <= x && r <= y
  {
    if x == 0 || y == 0 then 0 else 2 * And(x / 2, y / 2) + (if x % 2 == 1 && y % 2 == 1 then 1 else 0)
  }

  function Or(x: nat, y: nat): (r: nat)
    decreases x + y
  {
    if x == 0 then y else if y == 0 then x
    else 2 * Or(x / 2, y / 2) + (if x % 2 == 1 || y % 2 == 1 then 1 else 0)
  }

  /** Bit `k` of `x`. */
  predicate Bit(x: nat, k: nat) {
    (x / Pow2(k)) % 2 == 1
  }

  lemma {:induction false} Pow2Zero()
    ensures Pow2(0) == 1
  {
  }

  lemma {:induction false} Pow2Add(a: nat, b: nat)
    ensures Pow2(a + b) == Pow2(a) * Pow2(b)
  {
    if a > 0 {
      Pow2Add(a - 1, b);
      assert a + b - 1 == (a - 1) + b;
    }
  }

  lemma {:induction false} ByteValue()
    ensures Pow2(8) == 256
  {
    assert Pow2(4) == 16;
    Pow2Add(4, 4);
  }

  lemma {:induction false} Pow2Monotone(a: nat, b: nat)
    requires a <= b
    ensures Pow2(a) <= Pow2(b)
    decreases b
  {
    if a < b {
      Pow2Monotone(a, b - 1);
    }
  }

  /** Masking with `2^k - 1` is taking the remainder. */
  lemma {:induction false} AndMask(x: nat, k: nat)
    ensures And(x, Pow2(k) - 1) == x % Pow2(k)
  {
    hide And;
    if k == 0 {
      AndZero(x);
    } else {
      AndMask(x / 2, k - 1);
      AndMaskStep(x, Pow2(k - 1));
    }
  }

  lemma {:induction false} AndMaskStep(x: nat, q: nat)
    requires q >= 1 && And(x / 2, q - 1) == (x / 2) % q
    ensures And(x, 2 * q - 1) == x % (2 * q)
  {
    hide And;
    HalveMod(x, q);
    AndOdd(x, q - 1);
  }

  lemma {:induction false} AndZero(x: nat)
    ensures And(x, 0) == 0
  {
  }

  lemma {:induction false} AndOdd(x: nat, y: nat)
    ensures And(x, 2 * y + 1) == 2 * And(x / 2, y) + x % 2
  {
    assert (2 * y + 1) / 2 == y && (2 * y + 1) % 2 == 1;
  }

  lemma {:induction false} HalveMod(x: nat, q: nat)
    requires q >= 1
    ensures x % (2 * q) == 2 * ((x / 2) % q) + x % 2
  {
    var a := (x / 2) / q;
    var r := (x / 2) % q;
    assert x == 2 * (a * q + r) + x % 2;
    assert x == a * (2 * q) + (2 * r + x % 2);
    DivModUnique(x, 2 * q, a, 2 * r + x % 2);
  }

  lemma {:induction false} DivModUnique(x: nat, m: nat, a: nat, r: nat)
    requires m >= 1 && x == a * m + r && r < m
    ensures x / m == a && x % m == r
  {
    var b, s := x / m, x % m;
    assert x == b * m + s;
    MulMonotone(a + 1, b, m);
    MulMonotone(b + 1, a, m);
  }

  lemma {:induction false} MulMonotone(a: nat, b: nat, m: nat)
    ensures a <= b ==> a * m <= b * m
  {
    if a <= b {
      assert b * m == a * m + (b - a) * m;
    }
  }

  lemma {:induction false} ModStep(i: nat, m: nat)
    requires i < m
    ensures (i + 1) % m == if i + 1 == m then 0 else i + 1
  {
    if i + 1 == m {
      DivModUnique(m, m, 1, 0);
    } else {
      DivModUnique(i + 1, m, 0, i + 1);
    }
  }

  /** Joining a multiple of `2^k` with a number below `2^k` is adding. */
  lemma {:induction false} OrDisjoint(h: nat, k: nat, y: nat)
    requires y < Pow2(k)
    ensures Or(h * Pow2(k), y) == h * Pow2(k) + y
    decreases k
  {
    var x := h * Pow2(k);
    if k == 0 {
    } else {
      var q := Pow2(k - 1);
      assert x == 2 * (h * q);
      OrDisjoint(h, k - 1, y / 2);
      assert x / 2 == h * q && x % 2 == 0;
    }
  }

  lemma {:induction false} OrCommutes(x: nat, y: nat)
    ensures Or(x, y) == Or(y, x)
    decreases x + y
  {
    if x != 0 && y != 0 {
      OrCommutes(x / 2, y / 2);
    }
  }

  // ---------- bit by bit ----------

  lemma {:induction false} BitZero(x: nat)
    ensures Bit(x, 0) <==> x % 2 == 1
  {
  }

  lemma {:induction false} BitStep(x: nat, k: nat)
    requires k >= 1
    ensures Bit(x, k) <==> Bit(x / 2, k - 1)
  {
    var q := Pow2(k - 1);
    var h := x / 2;
    var a, r := h / q, h % q;
    assert h == a * q + r;
    assert x == a * (2 * q) + (2 * r + x % 2);
    DivModUnique(x, 2 * q, a, 2 * r + x % 2);
  }

  lemma {:induction false} BitOr(x: nat, y: nat, k: nat)
    ensures Bit(Or(x, y), k) <==> Bit(x, k) || Bit(y, k)
    decreases k
  {
    hide Bit;
    OrHalves(x, y);
    if k == 0 {
      BitZero(x);
      BitZero(y);
      BitZero(Or(x, y));
    } else {
      BitStep(x, k);
      BitStep(y, k);
      BitStep(Or(x, y), k);
      BitOr(x / 2, y / 2, k - 1);
    }
  }

  lemma {:induction false} OrHalves(x: nat, y: nat)
    ensures Or(x, y) / 2 == Or(x / 2, y / 2)
    ensures Or(x, y) % 2 == if x % 2 == 1 || y % 2 == 1 then 1 else 0
  {
  }

  lemma {:induction false} BitAnd(x: nat, y: nat, k: nat)
    ensures Bit(And(x, y), k) <==> Bit(x, k) && Bit(y, k)
    decreases k
  {
    hide Bit;
    AndHalves(x, y);
    if k == 0 {
      BitZero(x);
      BitZero(y);
      BitZero(And(x, y));
    } else {
      BitStep(x, k);
      BitStep(y, k);
      BitStep(And(x, y), k);
      BitAnd(x / 2, y / 2, k - 1);
    }
  }

  lemma {:induction false} AndHalves(x: nat, y: nat)
    ensures And(x, y) / 2 == And(x / 2, y / 2)
    ensures And(x, y) % 2 == if x % 2 == 1 && y % 2 == 1 then 1 else 0
  {
  }

  /** The complement of a word of `w` bits. */
  function Not(w: nat, x: nat): nat
    requires x < Pow2(w)
  {
    Pow2(w) - 1 - x
  }

  lemma {:induction false} BitNot(w: nat, x: nat, k: nat)
    requires x < Pow2(w) && k < w
    ensures Bit(Not(w, x), k) <==> !Bit(x, k)
    decreases k
  {
    hide Bit;
    var q := Pow2(w - 1);
    assert Not(w, x) / 2 == Not(w - 1, x / 2) && Not(w, x) % 2 == 1 - x % 2;
    if k == 0 {
      BitZero(x);
      BitZero(Not(w, x));
    } else {
      BitStep(x, k);
      BitStep(Not(w, x), k);
      BitNot(w - 1, x / 2, k - 1);
    }
  }

  lemma {:induction false} BitOfZero(k: nat)
    ensures !Bit(0, k)
  {
    DivModUnique(0, Pow2(k), 0, 0);
  }

  lemma {:induction false} BitPow2(i: nat, k: nat)
    ensures Bit(Pow2(i), k) <==> i == k
    decreases k
  {
    hide Bit;
    if k == 0 {
      BitZero(Pow2(i));
    } else {
      BitStep(Pow2(i), k);
      if i == 0 {
        BitOfZero(k - 1);
      } else {
        assert Pow2(i) / 2 == Pow2(i - 1);
        BitPow2(i - 1, k - 1);
      }
    }
  }

  lemma {:induction false} BitDouble(x: nat, k: nat)
    ensures Bit(2 * x, k) <==> k >= 1 && Bit(x, k - 1)
  {
    hide Bit;
    if k == 0 {
      BitZero(2 * x);
    } else {
      BitStep(2 * x, k);
      assert (2 * x) / 2 == x;
    }
  }

  /** Cutting to `w` bits keeps the bits below `w` and clears the others. */
  lemma {:induction false} BitMod(x: nat, w: nat, k: nat)
    ensures Bit(x % Pow2(w), k) <==> k < w && Bit(x, k)
    decreases k
  {
    hide Bit;
    if w == 0 {
      BitOfZero(k);
    } else {
      HalveMod(x, Pow2(w - 1));
      var y := x % Pow2(w);
      assert y / 2 == (x / 2) % Pow2(w - 1) && y % 2 == x % 2;
      if k == 0 {
        BitZero(x);
        BitZero(y);
      } else {
        BitStep(x, k);
        BitStep(y, k);
        BitMod(x / 2, w - 1, k - 1);
      }
    }
  }

  /** Masking one bit tests it. */
  lemma {:induction false} AndPow2(x: nat, k: nat)
    ensures And(x, Pow2(k)) == 0 <==> !Bit(x, k)
    decreases k
  {
    hide Bit;
    AndHalves(x, Pow2(k));
    if k == 0 {
      BitZero(x);
      AndZero(x / 2);
    } else {
      BitStep(x, k);
      AndPow2(x / 2, k - 1);
      assert Pow2(k) / 2 == Pow2(k - 1) && Pow2(k) % 2 == 0;
    }
  }
}
