/** `AK/BigIntBase.h`: schoolbook multiplication by columns. */
module BigIntMul {
  import opened Common
  import opened Words
  import opened BigInt
  import Bits

  /** The part of column `i` that rows below `rows` contribute. */
  ghost function Column(s: seq<nat>, t: seq<nat>, i: nat, rows: nat): int
    requires rows <= |s| && rows <= i + 1
  {
    if rows == 0 then 0
    else Column(s, t, i, rows - 1) + (if i - (rows - 1) < |t| then s[rows - 1] * t[i - (rows - 1)] else 0)
  }

  /** The words of `t` below place `n`. */
  ghost function Below(b: nat, t: seq<nat>, n: int): nat {
    if n <= 0 then 0 else if n <= |t| then Val(b, t[..n]) else Val(b, t)
  }

  /** The part of the product that lies in the columns below `i`, row by row. */
  ghost function Rows(b: nat, s: seq<nat>, t: seq<nat>, i: nat, rows: nat): int
    requires rows <= |s|
  {
    if rows == 0 then 0
    else Rows(b, s, t, i, rows - 1) + s[rows - 1] * (Pow(b, rows - 1) * Below(b, t, i - (rows - 1)))
  }

  lemma {:induction false} BelowStep(b: nat, t: seq<nat>, n: nat)
    ensures Below(b, t, n + 1) == Below(b, t, n) + (if n < |t| then t[n] * Pow(b, n) else 0)
  {
    if n < |t| {
      ValStep(b, t, n);
      assert t[..0] == [];
    } else {
      assert t[..|t|] == t;
    }
  }

  /** Column `i` is what the next column adds to the rows. */
  lemma {:induction false} NextColumn(b: nat, s: seq<nat>, t: seq<nat>, i: nat, rows: nat)
    requires rows <= |s| && rows <= i + 1
    ensures Rows(b, s, t, i + 1, rows) == Rows(b, s, t, i, rows) + Column(s, t, i, rows) * Pow(b, i)
  {
    hide Below, Pow;
    if rows > 0 {
      var j: nat := rows - 1;
      NextColumn(b, s, t, i, j);
      var n: nat := i - j;
      BelowStep(b, t, n);
      PowAdd(b, j, n);
      var y := if n < |t| then t[n] else 0;
      ColumnTerm(s[j], Pow(b, j), Below(b, t, n), y, Pow(b, n));
      Distribute(Column(s, t, i, j), s[j] * y, Pow(b, i));
    }
  }

  lemma {:induction false} ColumnTerm(x: nat, pj: nat, low: nat, y: nat, pn: nat)
    ensures x * (pj * (low + y * pn)) == x * (pj * low) + (x * y) * (pj * pn)
  {
    calc {
      x * (pj * (low + y * pn));
    ==  { Distribute(low, y * pn, pj); }
      x * (pj * low + (y * pn) * pj);
    ==  { Distribute(pj * low, (y * pn) * pj, x); }
      x * (pj * low) + x * ((y * pn) * pj);
    ==  { Assoc(y, pn, pj); Assoc(x, y, pn * pj); }
      x * (pj * low) + (x * y) * (pj * pn);
    }
  }

  /** A row whose first column lies at or above `i` adds nothing below `i`. */
  lemma {:induction false} NoRowsAbove(b: nat, s: seq<nat>, t: seq<nat>, i: nat, rows: nat)
    requires i <= rows <= |s|
    ensures Rows(b, s, t, i, rows) == Rows(b, s, t, i, i)
  {
    if rows > i {
      NoRowsAbove(b, s, t, i, rows - 1);
    }
  }

  /** The columns below `n` are the product, up to a multiple of `b^n`. */
  lemma {:induction false} RowsAreProduct(b: nat, s: seq<nat>, t: seq<nat>, n: nat, rows: nat) returns (over: nat)
    requires rows <= |s|
    ensures Rows(b, s, t, n, rows) + over * Pow(b, n) == Val(b, s[..rows]) * Val(b, t)
  {
    hide Below, Pow;
    if rows == 0 {
      assert s[..0] == [];
      return 0;
    }
    var j: nat := rows - 1;
    var before := RowsAreProduct(b, s, t, n, j);
    ValStep(b, s, j);
    var rest := BelowRest(b, t, n, j);
    over := before + s[j] * rest;
    ProductTerm(s[j], Pow(b, j), Below(b, t, n - j), rest, Pow(b, n), Val(b, t));
    Distribute(Val(b, s[..j]), s[j] * Pow(b, j), Val(b, t));
    Distribute(before, s[j] * rest, Pow(b, n));
  }

  lemma {:induction false} BelowRest(b: nat, t: seq<nat>, n: nat, j: nat) returns (rest: nat)
    ensures Pow(b, j) * Below(b, t, n - j) + rest * Pow(b, n) == Pow(b, j) * Val(b, t)
  {
    hide Pow, Val;
    if j >= n {
      PowAdd(b, j - n, n);
      rest := Pow(b, j - n) * Val(b, t);
      Swap(Pow(b, j - n), Pow(b, n), Val(b, t));
    } else if n - j <= |t| {
      var k: nat := n - j;
      ValSplit(b, t, k);
      rest := Val(b, t[k..]);
      PowAdd(b, j, k);
      RestTerm(Pow(b, j), Val(b, t[..k]), rest, Pow(b, k));
    } else {
      rest := 0;
    }
  }

  lemma {:induction false} Swap(x: nat, y: nat, z: nat)
    ensures (x * z) * y == (x * y) * z
  {
    Assoc(x, z, y);
    Assoc(x, y, z);
  }

  lemma {:induction false} RestTerm(pj: nat, low: nat, rest: nat, pk: nat)
    ensures pj * low + rest * (pj * pk) == pj * (low + rest * pk)
  {
    Distribute(low, rest * pk, pj);
    Assoc(rest, pk, pj);
  }

  lemma {:induction false} ProductTerm(x: nat, pj: nat, low: nat, rest: nat, pn: nat, v: nat)
    requires pj * low + rest * pn == pj * v
    ensures x * (pj * low) + (x * rest) * pn == (x * pj) * v
  {
    Assoc(x, rest, pn);
    Distribute(pj * low, rest * pn, x);
    Assoc(x, pj, v);
  }

  /** Rows below the first index of the inner loop do not reach the column. */
  lemma {:induction false} ColumnStart(s: seq<nat>, t: seq<nat>, i: nat, rows: nat)
    requires rows <= |s| && rows <= i + 1 && (rows == 0 || i - rows + 1 >= |t|)
    ensures Column(s, t, i, rows) == 0
  {
    if rows > 0 {
      ColumnStart(s, t, i, rows - 1);
    }
  }

  lemma {:induction false} ColumnStep(s: seq<nat>, t: seq<nat>, i: nat, j: nat)
    requires j < |s| && j <= i < j + |t|
    ensures Column(s, t, i, j + 1) == Column(s, t, i, j) + s[j] * t[i - j]
  {
  }

  lemma {:induction false} ProductBound(b: nat, x: nat, y: nat)
    requires x < b && y < b
    ensures 0 <= x * y <= (b - 1) * (b - 1)
  {
    MulLe(x, b - 1, y);
    MulLe(y, b - 1, b - 1);
  }

  /** A double word, cut to its width. */
  function Wrap(b: nat, x: nat): nat
    requires b >= 1
  {
    x % (b * b)
  }

  lemma {:induction false} NoWrap(b: nat, x: nat)
    requires b >= 1 && x < b * b
    ensures Wrap(b, x) == x
  {
    Bits.DivModUnique(x, b * b, 0, x);
  }

  /** The carry that enters or leaves a column stays below `terms * b`, far from a double word. */
  lemma {:induction false} CarryRoom(b: nat, terms: nat, word: nat, carry: nat, total: int)
    requires b >= 2 && terms <= b
    requires word + b * carry == total && total <= terms * ((b - 1) * b)
    ensures carry <= terms * (b - 1) < b * b
  {
    Assoc(terms, b - 1, b);
    MulLt(terms * (b - 1), carry, b);
    MulLe(terms, b, b - 1);
    Distribute(b, 1, b);
  }

  /** One product added to the word of the column and the double-word carry. */
  method AddProduct(b: nat, x: nat, y: nat, word: nat, carry: nat, ghost terms: nat, ghost total: int)
    returns (word': nat, carry': nat)
    requires b >= 2 && x < b && y < b && word < b && terms <= b
    requires word + b * carry == total && total + x * y <= terms * ((b - 1) * b)
    ensures word' < b && word' + b * carry' == total + x * y
  {
    ghost var exact := x * y;
    DoubleWordProduct(b, x, y);
    NoWrap(b, exact);
    var product := Wrap(b, x * y);
    Halves(b, product);
    var ncarry;
    word', ncarry := AddWords(b, word, product % b, false);
    var high := product / b + B2N(ncarry);
    ProductStep(b, word, product % b, product / b, word', B2N(ncarry), carry);
    CarryRoom(b, terms, word', carry + high, total + exact);
    NoWrap(b, carry + high);
    carry' := Wrap(b, carry + high);
  }

  lemma {:induction false} DoubleWordProduct(b: nat, x: nat, y: nat)
    requires x < b && y < b
    ensures 0 <= x * y < b * b
  {
    ProductBound(b, x, y);
    Distribute(b, 1, b - 1);
  }

  lemma {:induction false} ProductStep(b: nat, word: int, low: int, high: int, word': int, n: int, carry: int)
    requires word + low == word' + b * n
    ensures word' + b * (carry + (high + n)) == word + b * carry + (low + b * high)
  {
    Distribute(carry, high + n, b);
    Distribute(high, n, b);
  }

  /** The inner loop: one column. */
  method AddColumn(b: nat, op1: seq<nat>, op2: seq<nat>, size1: nat, size2: nat, i: nat, word0: nat, carry0: nat)
    returns (word: nat, carry: nat)
    requires b >= 2 && Digits(b, op1) && Digits(b, op2)
    requires size1 <= |op1| && size2 <= |op2| && size2 <= b && word0 < b
    requires i >= size1 ==> size1 == |op1|
    requires i >= size2 ==> size2 == |op2|
    requires word0 + b * carry0 <= size2 * (b - 1)
    ensures word < b
    ensures word + b * carry == word0 + b * carry0 + Column(op1, op2, i, Min(i + 1, |op1|))
    ensures carry <= size2 * (b - 1)
  {
    hide Column;
    word, carry := word0, carry0;
    ghost var total := word0 + b * carry0;
    var start: nat := if i >= size2 then i - size2 + 1 else 0;
    var end := Min(i + 1, size1);
    ghost var room := (b - 1) * (b - 1);
    ColumnStart(op1, op2, i, Min(start, end));
    var j := start;
    while j < end
      invariant start <= j <= start + size2 && (j <= end || j == start)
      invariant word < b
      invariant word + b * carry == total + Column(op1, op2, i, Min(j, end))
      invariant Column(op1, op2, i, Min(j, end)) <= (j - start) * room
    {
      ghost var col := Column(op1, op2, i, j);
      ColumnStep(op1, op2, i, j);
      ProductBound(b, op1[j], op2[i - j]);
      Distribute(j - start, 1, room);
      TotalRoom(b, size2, total, j - start + 1, col + op1[j] * op2[i - j]);
      word, carry := AddProduct(b, op1[j], op2[i - j], word, carry, size2, total + col);
      j := j + 1;
    }
    TotalRoom(b, size2, total, j - start, Column(op1, op2, i, end));
    CarryRoom(b, size2, word, carry, total + Column(op1, op2, i, end));
  }

  /** What enters a column and at most `terms` products fit together. */
  lemma {:induction false} TotalRoom(b: nat, terms: nat, total: int, done: nat, col: int)
    requires b >= 2 && done <= terms && total <= terms * (b - 1) && col <= done * ((b - 1) * (b - 1))
    ensures total + col <= terms * ((b - 1) * b)
  {
    MulLe(done, terms, (b - 1) * (b - 1));
    Distribute(b - 1, 1, b - 1);
    Distribute(b - 1, (b - 1) * (b - 1), terms);
  }

  /** One round of the outer loop. */
  method MulColumn(b: nat, op1: seq<nat>, op2: seq<nat>, size1: nat, size2: nat, i: nat, carry0: nat, result: array<nat>)
    returns (carry: nat)
    requires b >= 2 && Digits(b, op1) && Digits(b, op2) && |op2| <= b && i < result.Length
    requires size1 == Min(|op1|, result.Length) && size2 == Min(|op2|, result.Length)
    requires carry0 <= size2 * (b - 1)
    modifies result
    ensures result[..i] == old(result[..i]) && result[i] < b
    ensures result[i] + b * carry == carry0 + Column(op1, op2, i, Min(i + 1, |op1|))
    ensures carry <= size2 * (b - 1)
  {
    hide Column;
    Halves(b, carry0);
    result[i] := carry0 % b;
    result[i], carry := AddColumn(b, op1, op2, size1, size2, i, result[i], carry0 / b);
  }

  /** The column loop. */
  method MulColumns(b: nat, op1: seq<nat>, op2: seq<nat>, size1: nat, size2: nat, result: array<nat>) returns (carry: nat)
    requires b >= 2 && Digits(b, op1) && Digits(b, op2) && |op2| <= b
    requires size1 == Min(|op1|, result.Length) && size2 == Min(|op2|, result.Length)
    modifies result
    ensures Digits(b, result[..])
    ensures Val(b, result[..]) + carry * Pow(b, result.Length)
         == Rows(b, op1, op2, result.Length, Min(result.Length, |op1|))
  {
    hide Val, Pow, Rows, Column;
    carry := 0;
    assert result[..0] == [];
    ValZero(b, []);
    FirstRows(b, op1, op2);
    for i: nat := 0 to result.Length
      invariant Digits(b, result[..i])
      invariant carry <= size2 * (b - 1)
      invariant Val(b, result[..i]) + carry * Pow(b, i) == Rows(b, op1, op2, i, Min(i, |op1|))
    {
      ghost var before, was := result[..i], carry;
      carry := MulColumn(b, op1, op2, size1, size2, i, carry, result);
      assert result[..i + 1] == before + [result[i]];
      ValSnoc(b, before, result[i]);
      ColumnDone(b, op1, op2, i, Val(b, before), was, result[i], carry);
    }
    assert result[..result.Length] == result[..];
  }

  lemma {:induction false} FirstRows(b: nat, s: seq<nat>, t: seq<nat>)
    ensures Rows(b, s, t, 0, 0) == 0
  {
  }

  lemma {:induction false} ColumnDone(b: nat, s: seq<nat>, t: seq<nat>, i: nat, low: nat, was: nat, word: nat, carry: nat)
    requires low + was * Pow(b, i) == Rows(b, s, t, i, Min(i, |s|))
    requires word + b * carry == was + Column(s, t, i, Min(i + 1, |s|))
    ensures low + word * Pow(b, i) + carry * Pow(b, i + 1) == Rows(b, s, t, i + 1, Min(i + 1, |s|))
  {
    hide Rows, Column;
    var n, p := Min(i + 1, |s|), Pow(b, i);
    NextColumn(b, s, t, i, n);
    if i < |s| {
      NoRowsAbove(b, s, t, i, n);
    }
    var col := Column(s, t, i, n);
    Distribute(was, col, p);
    Distribute(word, b * carry, p);
    assert (b * carry) * p == carry * Pow(b, i + 1) by {
      Assoc(carry, b, p);
    }
  }

  // ---------- signs ----------

  /** Where the remainder lies in range, the number it is congruent to decides it. */
  lemma {:induction false} ModIs(x: int, p: int, k: int, v: int)
    requires p >= 1 && x == v + k * p && 0 <= v < p
    ensures x % p == v
  {
    var q, r := x / p, x % p;
    assert x == q * p + r;
    assert p * (q + 1) == q * p + p && p * (k + 1) == k * p + p;
    if q < k {
      ScaleLe(p, q + 1, k);
    } else if q > k {
      ScaleLe(p, k + 1, q);
    }
  }

  lemma {:induction false} ModFact(x: int, p: int)
    requires p >= 1
    ensures x == x % p + (x / p) * p && 0 <= x % p < p
  {
  }

  /** Less than one turn ahead of a number, only the number itself is its remainder. */
  lemma {:induction false} LessThanOneTurn(v: int, t: int, p: int)
    requires 0 <= v < p && 0 <= v - t < p
    ensures v == t % p <==> v == t
  {
    if v == t {
      ModIs(t, p, 0, v);
    } else if v == t % p {
      ModFact(t, p);
      var k := t / p;
      if k >= 0 {
        ScaleLe(p, 0, k);
      } else {
        ScaleLe(p, k, -1);
      }
    }
  }

  /** Adding whole turns to either factor does not change the remainder. */
  lemma {:induction false} TurnsVanish(x: int, y: int, i: int, j: int, p: int)
    requires p >= 1
    ensures ((x + i * p) * (y + j * p)) % p == (x * y) % p
  {
    var k := x * j + i * y + i * (j * p);
    assert (x + i * p) * (y + j * p) == x * y + k * p by {
      TurnsProduct(x, y, i, j, p);
    }
    ModFact(x * y, p);
    var q := (x * y) / p;
    Distribute(q, k, p);
    ModIs((x + i * p) * (y + j * p), p, q + k, (x * y) % p);
  }

  lemma {:induction false} TurnsProduct(x: int, y: int, i: int, j: int, p: int)
    ensures (x + i * p) * (y + j * p) == x * y + (x * j + i * y + i * (j * p)) * p
  {
    var s, t := i * p, j * p;
    assert (x + s) * (y + t) == x * y + x * t + s * y + s * t;
    Assoc(x, j, p);
    assert s * y == (i * y) * p by {
      Assoc(i, p, y);
      Assoc(i, y, p);
    }
    assert s * t == (i * t) * p by {
      Assoc(i, p, t);
      Assoc(i, t, p);
    }
    Distribute(x * j, i * y, p);
    Distribute(x * j + i * y, i * t, p);
  }

  /** In storages at least as long as the result, the sign does not show. */
  lemma {:induction false} SignVanishes(b: nat, s: seq<nat>, signed: bool, n: nat) returns (k: int)
    requires b >= 1 && n <= |s|
    ensures Val(b, s) == SVal(b, s, signed) + k * Pow(b, n)
  {
    hide Val, Pow;
    k := 0;
    if IsNegative(b, s, signed) {
      PowAdd(b, |s| - n, n);
      k := Pow(b, |s| - n);
    }
  }

  lemma {:induction false} RawProduct(b: nat, s: seq<nat>, signed: bool, t: seq<nat>, signed': bool, n: nat)
    requires b >= 1 && n <= |s| && n <= |t|
    ensures (Val(b, s) * Val(b, t)) % Pow(b, n) == (SVal(b, s, signed) * SVal(b, t, signed')) % Pow(b, n)
  {
    hide Val, Pow, SVal;
    var i := SignVanishes(b, s, signed, n);
    var j := SignVanishes(b, t, signed', n);
    TurnsVanish(SVal(b, s, signed), SVal(b, t, signed'), i, j, Pow(b, n));
  }

  /** The size of a number without its sign. */
  ghost function Magnitude(b: nat, s: seq<nat>, signed: bool): int {
    if IsNegative(b, s, signed) then -SVal(b, s, signed) else SVal(b, s, signed)
  }

  /** The words of the magnitude. */
  method Normalized(b: nat, op: seq<nat>, signed: bool) returns (r: seq<nat>)
    requires b >= 2 && Digits(b, op)
    ensures Digits(b, r) && |r| == |op| && Val(b, r) == Magnitude(b, op, signed)
  {
    hide Val, Pow;
    if !IsNegative(b, op, signed) {
      return op;
    }
    var words := new nat[|op|](i requires 0 <= i < |op| => op[i]);
    var inverted := new nat[|op|];
    assert words[..] == op;
    var carry := Negate(b, words, inverted);
    if Val(b, op) == 0 {
      ValZeroOnly(b, op, |op| - 1);
    }
    r := inverted[..];
  }

  lemma {:induction false} SignedProduct(b: nat, s: seq<nat>, signed: bool, t: seq<nat>, signed': bool)
    ensures var m := Magnitude(b, s, signed) * Magnitude(b, t, signed');
            SVal(b, s, signed) * SVal(b, t, signed') ==
              if IsNegative(b, s, signed) != IsNegative(b, t, signed') then -m else m
  {
    hide SVal;
    var x, y := SVal(b, s, signed), SVal(b, t, signed');
    assert (-x) * y == -(x * y) && x * (-y) == -(x * y) && (-x) * (-y) == x * y;
  }

  lemma {:induction false} NegatedRemainder(m: int, p: int, v: int, v': int)
    requires p >= 1 && v == m % p && v' == if v != 0 then p - v else 0
    ensures v' == (-m) % p
  {
    ModFact(m, p);
    var q := m / p;
    if v != 0 {
      assert (-q - 1) * p == -(q * p) - p;
      ModIs(-m, p, -q - 1, v');
    } else {
      assert (-q) * p == -(q * p);
      ModIs(-m, p, -q, 0);
    }
  }

  /** The one-word path reads the words without their signs. Exactly here it is right nevertheless. */
  predicate SingleRight(b: nat, n: nat, x: nat, negative1: bool, y: nat, negative2: bool) {
    || n == 1 || (!negative1 && !negative2)
    || (negative1 && negative2 && x + y == b)
    || (n == 2 && negative1 != negative2 && (if negative1 then y else x) == 0)
  }

  /** `baseline_mul`: the product, cut to the size of the result. On two storages of one word each it is right
      exactly when `SingleRight` holds. */
  method BaselineMul(b: nat, op1: seq<nat>, signed1: bool, op2: seq<nat>, signed2: bool, result: array<nat>)
    requires b >= 2 && b % 2 == 0 && Digits(b, op1) && Digits(b, op2) && |op1| <= b && |op2| <= b
    requires |op1| == 1 && |op2| == 1 ==> result.Length >= 1
    modifies result
    ensures Digits(b, result[..])
    ensures Val(b, result[..]) == (SVal(b, op1, signed1) * SVal(b, op2, signed2)) % Pow(b, result.Length) <==>
              (|op1| == 1 && |op2| == 1 ==>
                 SingleRight(b, result.Length, op1[0], IsNegative(b, op1, signed1), op2[0], IsNegative(b, op2, signed2)))
    decreases |op2| - |op1|
  {
    hide Val, Pow, Rows, SVal, SingleRight, IsNegative, Magnitude;
    if |op1| == 1 && |op2| == 1 {
      MulSingleWords(b, op1, signed1, op2, signed2, result);
      return;
    }
    if |op1| < |op2| {
      BaselineMul(b, op2, signed2, op1, signed1, result);
      assert SVal(b, op1, signed1) * SVal(b, op2, signed2) == SVal(b, op2, signed2) * SVal(b, op1, signed1);
      return;
    }
    MulLong(b, op1, signed1, op2, signed2, result);
  }

  /** The general path: magnitudes where the result is longer than the shorter operand, raw words elsewhere. */
  method MulLong(b: nat, op1: seq<nat>, signed1: bool, op2: seq<nat>, signed2: bool, result: array<nat>)
    requires b >= 2 && Digits(b, op1) && Digits(b, op2) && |op2| <= |op1| <= b
    modifies result
    ensures Digits(b, result[..])
    ensures Val(b, result[..]) == (SVal(b, op1, signed1) * SVal(b, op2, signed2)) % Pow(b, result.Length)
  {
    hide Val, Pow, Rows, SVal, IsNegative, Magnitude;
    var sign1, sign2 := IsNegative(b, op1, signed1), IsNegative(b, op2, signed2);
    if |op2| < result.Length {
      var data1 := Normalized(b, op1, signed1);
      var data2 := Normalized(b, op2, signed2);
      Multiply(b, data1, data2, result);
      SignedProduct(b, op1, signed1, op2, signed2);
      if sign1 != sign2 {
        ghost var v := Val(b, result[..]);
        var carry := Negate(b, result, result);
        NegatedRemainder(Magnitude(b, op1, signed1) * Magnitude(b, op2, signed2), Pow(b, result.Length), v, Val(b, result[..]));
      }
    } else {
      Multiply(b, op1, op2, result);
      RawProduct(b, op1, signed1, op2, signed2, result.Length);
    }
  }

  method Multiply(b: nat, data1: seq<nat>, data2: seq<nat>, result: array<nat>)
    requires b >= 2 && Digits(b, data1) && Digits(b, data2) && |data2| <= |data1| <= b
    modifies result
    ensures Digits(b, result[..])
    ensures Val(b, result[..]) == (Val(b, data1) * Val(b, data2)) % Pow(b, result.Length)
  {
    hide Val, Pow, Rows;
    var carry := MulColumns(b, data1, data2, Min(|data1|, result.Length), Min(|data2|, result.Length), result);
    ColumnsAreProduct(b, data1, data2, result[..], carry);
  }

  lemma {:induction false} ColumnsAreProduct(b: nat, s: seq<nat>, t: seq<nat>, r: seq<nat>, carry: nat)
    requires b >= 1 && Digits(b, r) && Val(b, r) + carry * Pow(b, |r|) == Rows(b, s, t, |r|, Min(|r|, |s|))
    ensures Val(b, r) == (Val(b, s) * Val(b, t)) % Pow(b, |r|)
  {
    hide Val, Pow, Rows;
    if |r| < |s| {
      NoRowsAbove(b, s, t, |r|, |s|);
    }
    var over := RowsAreProduct(b, s, t, |r|, |s|);
    assert s[..|s|] == s;
    ValBound(b, r);
    Distribute(carry, over, Pow(b, |r|));
    Bits.DivModUnique(Val(b, s) * Val(b, t), Pow(b, |r|), carry + over, Val(b, r));
  }

  method MulSingleWords(b: nat, op1: seq<nat>, signed1: bool, op2: seq<nat>, signed2: bool, result: array<nat>)
    requires b >= 2 && b % 2 == 0 && Digits(b, op1) && Digits(b, op2) && |op1| == 1 && |op2| == 1 && result.Length >= 1
    modifies result
    ensures Digits(b, result[..])
    ensures Val(b, result[..]) == (SVal(b, op1, signed1) * SVal(b, op2, signed2)) % Pow(b, result.Length) <==>
              SingleRight(b, result.Length, op1[0], IsNegative(b, op1, signed1), op2[0], IsNegative(b, op2, signed2))
  {
    hide Val, Pow, SingleRight;
    var sign1, sign2 := IsNegative(b, op1, signed1), IsNegative(b, op2, signed2);
    ProductBound(b, op1[0], op2[0]);
    var value := op1[0] * op2[0];
    StoreDouble(b, value, ExtendSign(b, sign1 != sign2), result);
    SingleVal(b, op1);
    SingleVal(b, op2);
    FirstPowers(b);
    hide SVal, IsNegative;
    SingleStored(b, value, sign1 != sign2, result[..]);
    SingleDecides(b, result.Length, op1[0], sign1, op2[0], sign2, Val(b, result[..]));
  }

  method StoreDouble(b: nat, value: nat, fill: nat, result: array<nat>)
    requires b >= 2 && value <= (b - 1) * (b - 1) && result.Length >= 1 && fill < b
    modifies result
    ensures Digits(b, result[..])
    ensures result[0] == value % b && (result.Length > 1 ==> result[1] == value / b)
    ensures forall k :: 2 <= k < result.Length ==> result[k] == fill
  {
    Halves(b, value);
    QuotientSmall(b, value);
    result[0] := value % b;
    if result.Length > 1 {
      result[1] := value / b;
      for i := 2 to result.Length
        invariant result[0] == value % b && result[1] == value / b
        invariant forall k :: 2 <= k < i ==> result[k] == fill
      {
        result[i] := fill;
      }
    }
  }

  lemma {:induction false} QuotientSmall(b: nat, x: nat)
    requires b >= 2 && x <= (b - 1) * (b - 1)
    ensures x / b < b
  {
    Distribute(b, 1, b - 1);
    MulLt(x / b, b, b);
  }

  lemma {:induction false} SingleVal(b: nat, s: seq<nat>)
    requires |s| == 1
    ensures Val(b, s) == s[0]
  {
    assert s[..0] == [];
  }

  /** A double word under fill words. */
  lemma {:induction false} SingleStored(b: nat, x: nat, negative: bool, r: seq<nat>)
    requires b >= 2 && r != [] && r[0] == x % b && (|r| > 1 ==> r[1] == x / b)
    requires forall k :: 2 <= k < |r| ==> r[k] == ExtendSign(b, negative)
    ensures |r| == 1 ==> Val(b, r) == x % b
    ensures |r| > 1 ==> Val(b, r) == x + (if negative then Pow(b, |r|) - Pow(b, 2) else 0)
  {
    hide Val, Pow;
    if |r| == 1 {
      SingleVal(b, r);
    } else {
      var n: nat := |r| - 1;
      ValSnoc(b, r[..n], r[n]);
      assert r == r[..n] + [r[n]];
      if |r| == 2 {
        Halves(b, x);
        SingleVal(b, r[..1]);
        FirstPowers(b);
      } else {
        SingleStored(b, x, negative, r[..n]);
        PowStep(b, n);
        Distribute(b, 1, Pow(b, n));
      }
    }
  }

  lemma {:induction false} FirstPowers(b: nat)
    ensures Pow(b, 1) == b && Pow(b, 2) == b * b
  {
    assert Pow(b, 1) == Pow(b, 0) * b;
    assert Pow(b, 2) == Pow(b, 1) * b;
  }

  /** The product of two signed words, from the words without their signs. */
  lemma {:induction false} SignedWords(b: int, x: int, s1: bool, y: int, s2: bool)
    ensures (x - Turn(s1, b)) * (y - Turn(s2, b)) == x * y - Turn(s1, b * y) - Turn(s2, b * x) + Turn(s1 && s2, b * b)
  {
    assert (x - b) * (y - b) == x * y - b * y - b * x + b * b;
    assert (x - b) * y == x * y - b * y && x * (y - b) == x * y - b * x;
  }

  lemma {:induction false} SingleDecides(b: nat, n: nat, x: nat, s1: bool, y: nat, s2: bool, v: int)
    requires b >= 2 && b % 2 == 0 && n >= 1 && x < b && y < b && (s1 ==> x >= b / 2) && (s2 ==> y >= b / 2)
    requires n == 1 ==> v == (x * y) % b
    requires n > 1 ==> v == x * y + (if s1 != s2 then Pow(b, n) - Pow(b, 2) else 0)
    ensures v == ((x - Turn(s1, b)) * (y - Turn(s2, b))) % Pow(b, n) <==> SingleRight(b, n, x, s1, y, s2)
  {
    hide Pow;
    FirstPowers(b);
    if n == 1 {
      var i, j := if s1 then -1 else 0, if s2 then -1 else 0;
      TurnsVanish(x, y, i, j, b);
      assert x + i * b == x - Turn(s1, b) && y + j * b == y - Turn(s2, b);
    } else {
      PowAbove(b, n);
      SignedWords(b, x, s1, y, s2);
      DoubleDecides(b, n, x, s1, y, s2, v, Pow(b, n));
    }
  }

  lemma {:induction false} PowAbove(b: nat, n: nat)
    requires b >= 2 && n >= 2
    ensures Pow(b, n) >= b * b && (n > 2 ==> Pow(b, n) > b * b)
  {
    hide Pow;
    FirstPowers(b);
    if n > 2 {
      PowAbove(b, n - 1);
      PowStep(b, n - 1);
      MulLe(2, b, Pow(b, n - 1));
      ProductPositive(b);
    }
  }

  lemma {:induction false} ProductPositive(b: nat)
    requires b >= 2
    ensures b * b >= 2
  {
    MulLe(2, b, b);
  }

  lemma {:induction false} DoubleDecides(b: nat, n: nat, x: nat, s1: bool, y: nat, s2: bool, v: int, p: int)
    requires b >= 2 && b % 2 == 0 && n > 1 && x < b && y < b && (s1 ==> x >= b / 2) && (s2 ==> y >= b / 2)
    requires b * b <= p && (n == 2 ==> p == b * b) && (n > 2 ==> p > b * b)
    requires v == x * y + (if s1 != s2 then p - b * b else 0)
    ensures var t := x * y - Turn(s1, b * y) - Turn(s2, b * x) + Turn(s1 && s2, b * b);
            v == t % p <==> SingleRight(b, n, x, s1, y, s2)
  {
    WordTimes(b, x, y);
    BelowBase(b, x);
    BelowBase(b, y);
    if s1 && s2 {
      BothNegative(b, x, y);
    }
    LinearDecides(n, x, s1, y, s2, x + y == b, v, p, x * y, b * x, b * y, b * b);
  }

  lemma {:induction false} LinearDecides(n: nat, x: int, s1: bool, y: int, s2: bool, lowest: bool, v: int, p: int,
      xy: int, xb: int, yb: int, bb: int)
    requires n > 1 && bb <= p && (n == 2 ==> p == bb) && (n > 2 ==> p > bb)
    requires 0 <= xy < bb && 0 <= xb < bb && 0 <= yb < bb && (xb == 0 <==> x == 0) && (yb == 0 <==> y == 0)
    requires s1 && s2 ==> 0 <= xb + yb - bb && (xb + yb == bb <==> lowest)
    requires v == xy + (if s1 != s2 then p - bb else 0)
    ensures v == (xy - Turn(s1, yb) - Turn(s2, xb) + Turn(s1 && s2, bb)) % p <==>
              ((!s1 && !s2) || (s1 && s2 && lowest) || (n == 2 && s1 != s2 && (if s1 then y else x) == 0))
  {
    LessThanOneTurn(v, xy - Turn(s1, yb) - Turn(s2, xb) + Turn(s1 && s2, bb), p);
  }

  lemma {:induction false} BothNegative(b: int, x: int, y: int)
    requires b % 2 == 0 && b / 2 <= x < b && b / 2 <= y < b
    ensures 0 <= b * x + b * y - b * b && (b * x + b * y == b * b <==> x + y == b)
  {
    var over := x + y - b;
    assert b * y + b * x - b * b == b * over;
    ScaleLe(b, 0, over);
    if over > 0 {
      ScaleLe(b, 1, over);
    }
  }

  lemma {:induction false} WordTimes(b: int, x: int, y: int)
    requires 0 <= x < b && 0 <= y < b
    ensures 0 <= x * y < b * b
  {
    ScaleLe(x, 0, y);
    ScaleLe(x, y, b);
    ScaleLe(b, x, b - 1);
    assert b * (b - 1) == b * b - b && x * b == b * x;
  }

  lemma {:induction false} BelowBase(b: int, x: int)
    requires 0 <= x < b
    ensures 0 <= b * x < b * b && (b * x == 0 <==> x == 0)
  {
    ScaleLe(b, x, b - 1);
    ScaleLe(b, 0, x);
    assert b * (b - 1) == b * b - b;
    if x > 0 {
      ScaleLe(b, 1, x);
    }
  }

  /** Minus one times one, each in one word, does not give minus one in two words. */
  method SignedWordsGoWrong(b: nat) returns (result: array<nat>)
    requires b >= 2 && b % 2 == 0
    ensures result.Length == 2 && SVal(b, [b - 1], true) == -1 && SVal(b, [1], false) == 1
    ensures Val(b, result[..]) != (SVal(b, [b - 1], true) * SVal(b, [1], false)) % Pow(b, 2)
  {
    SingleVal(b, [b - 1]);
    SingleVal(b, [1]);
    FirstPowers(b);
    result := new nat[2];
    assert SVal(b, [b - 1], true) == -1 && SVal(b, [1], false) == 1;
    hide Val, Pow, SVal;
    BaselineMul(b, [b - 1], true, [1], false, result);
  }
}
