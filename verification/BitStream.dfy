/** `AK/BitStream.h`: reading and writing bits in little-endian order through a 64-bit buffer. */
module BitStream {
  import opened Words
  import opened Bits

  const BUFFER_BITS: nat := 64
  const BYTE_BITS: nat := 8

  // ---------- bytes of a number ----------

  /** The low `n` bytes of `x`, lowest first: the memory of a word on a little-endian host. */
  function LowBytes(x: nat, n: nat): (r: seq<nat>)
    ensures |r| == n
  {
    if n == 0 then [] else [x % 256] + LowBytes(x / 256, n - 1)
  }

  lemma {:induction false} Pow256(n: nat)
    ensures Pow(256, n) == Pow2(8 * n)
  {
    ByteValue();
    PowOfPow2(8, n);
  }

  lemma {:induction false} LowBytesDigits(x: nat, n: nat)
    ensures Digits(256, LowBytes(x, n))
  {
    if n > 0 {
      LowBytesDigits(x / 256, n - 1);
    }
  }

  lemma {:induction false} LowBytesVal(x: nat, n: nat)
    ensures Val(256, LowBytes(x, n)) == x % Pow(256, n)
  {
    hide Val;
    if n == 0 {
      ValZero(256, []);
    } else {
      LowBytesVal(x / 256, n - 1);
      ValCons(256, x % 256, LowBytes(x / 256, n - 1));
      PowStep(256, n - 1);
      ModByteThenRest(x, Pow(256, n - 1));
    }
  }

  lemma {:induction false} ModByteThenRest(x: nat, p: nat)
    requires p >= 1
    ensures x % (p * 256) == x % 256 + 256 * ((x / 256) % p)
  {
    var h := x / 256;
    var a, r := h / p, h % p;
    assert h == a * p + r;
    assert x == a * (p * 256) + (x % 256 + 256 * r);
    DivModUnique(x, p * 256, a, x % 256 + 256 * r);
  }

  // ---------- what a stream holds ----------

  /** The bits written so far, as one number of `length` bits. */
  ghost predicate Holds(output: seq<nat>, buffer: nat, count: nat, number: nat, length: nat) {
    && Digits(256, output) && buffer < Pow2(count) && length == 8 * |output| + count
    && number == Val(256, output) + Pow2(8 * |output|) * buffer
  }

  /** Moving whole bytes from the buffer to the output changes nothing. */
  lemma {:induction false} FlushKeeps(output: seq<nat>, buffer: nat, count: nat, number: nat, length: nat, k: nat)
    requires Holds(output, buffer, count, number, length) && 8 * k <= count
    ensures Holds(output + LowBytes(buffer, k), Quot(buffer, Pow2(8 * k)), count - 8 * k, number, length)
  {
    hide Val, LowBytes, Pow2;
    var bytes := LowBytes(buffer, k);
    var p, m := Pow2(8 * |output|), Pow2(8 * k);
    LowBytesDigits(buffer, k);
    LowBytesVal(buffer, k);
    assert Val(256, bytes) == Rem(buffer, Pow(256, k));
    Pow256(k);
    Pow256(|output|);
    ValConcat(256, output, bytes);
    Pow2Add(8 * |output|, 8 * k);
    assert 8 * |output| + 8 * k == 8 * |output + bytes|;
    ShiftedBelow(buffer, count, 8 * k);
    FlushArithmetic(Val(256, output), p, m, buffer);
  }

  lemma {:induction false} ShiftedBelow(buffer: nat, count: nat, k: nat)
    requires buffer < Pow2(count) && k <= count
    ensures Quot(buffer, Pow2(k)) < Pow2(count - k)
  {
    hide Pow2;
    Pow2Add(count - k, k);
    QuotientUnder(buffer, Pow2(k), Pow2(count - k));
  }

  lemma {:induction false} QuotientUnder(x: nat, q: nat, m: nat)
    requires q >= 1 && x < m * q
    ensures Quot(x, q) < m
  {
    QuotRem(x, q);
    MulLt(Quot(x, q), m, q);
  }

  lemma {:induction false} FlushArithmetic(low: nat, p: nat, m: nat, buffer: nat)
    requires m >= 1
    ensures low + Rem(buffer, m) * p + (p * m) * Quot(buffer, m) == low + p * buffer
  {
    QuotRem(buffer, m);
    var a, r := Quot(buffer, m), Rem(buffer, m);
    Assoc(p, m, a);
    Distribute(r, m * a, p);
  }

  /** Adding `n` bits above the buffer adds them above the number. */
  lemma {:induction false} AppendKeeps(output: seq<nat>, buffer: nat, count: nat, number: nat, length: nat, value: nat, n: nat)
    requires Holds(output, buffer, count, number, length) && value < Pow2(n)
    ensures Holds(output, buffer + value * Pow2(count), count + n, number + value * Pow2(length), length + n)
  {
    hide Val;
    var p := Pow2(8 * |output|);
    Pow2Add(8 * |output|, count);
    Pow2Add(n, count);
    AppendRoom(buffer, Pow2(count), value, Pow2(n));
    AppendArithmetic(p, buffer, value, Pow2(count));
  }

  lemma {:induction false} AppendRoom(buffer: nat, c: nat, value: nat, n: nat)
    requires buffer < c && value < n
    ensures buffer + value * c < n * c
  {
    MulLe(value + 1, n, c);
    Distribute(value, 1, c);
  }

  lemma {:induction false} AppendArithmetic(p: nat, buffer: nat, value: nat, c: nat)
    ensures p * (buffer + value * c) == p * buffer + value * (p * c)
  {
    Distribute(buffer, value * c, p);
    Assoc(value, c, p);
  }

  /** `buffer |= (value << count)`, cut to the word. */
  function Joined(buffer: nat, value: nat, count: nat): nat {
    Or(buffer, (value * Pow2(count)) % Pow2(BUFFER_BITS))
  }

  lemma {:induction false} QuotRemUnique(x: nat, m: nat, a: nat, r: nat)
    requires m >= 1 && x == r + m * a && r < m
    ensures Rem(x, m) == r && Quot(x, m) == a
  {
    DivModUnique(x, m, a, r);
  }

  /** The bits of a value that a shift by `count` keeps in the word. */
  function Kept(value: nat, count: nat): nat
    requires count <= BUFFER_BITS
  {
    Rem(value, Pow2(BUFFER_BITS - count))
  }

  lemma {:induction false} JoinedAdds(buffer: nat, value: nat, count: nat)
    requires buffer < Pow2(count) && count <= BUFFER_BITS
    ensures Joined(buffer, value, count) == buffer + Kept(value, count) * Pow2(count)
  {
    hide Pow2, Or;
    Pow2Add(BUFFER_BITS - count, count);
    ScaledDown(value, Pow2(count), Pow2(BUFFER_BITS - count));
    OrDisjoint(Kept(value, count), count, buffer);
    OrCommutes(buffer, Kept(value, count) * Pow2(count));
  }

  lemma {:induction false} KeptSmall(value: nat, n: nat, count: nat)
    requires value < Pow2(n) && count + n <= BUFFER_BITS
    ensures Kept(value, count) == value
  {
    Pow2Monotone(n, BUFFER_BITS - count);
    DivModUnique(value, Pow2(BUFFER_BITS - count), 0, value);
  }

  /** What is kept, if it fits into `n` bits, is the low `n` bits of the value. */
  lemma {:induction false} KeptIsLow(value: nat, n: nat, count: nat)
    requires count + n <= BUFFER_BITS && Kept(value, count) < Pow2(n)
    ensures Kept(value, count) == Rem(value, Pow2(n))
  {
    hide Pow2, Quot, Rem;
    var m, q := Pow2(BUFFER_BITS - count - n), Pow2(n);
    Pow2Add(BUFFER_BITS - count - n, n);
    QuotRem(value, m * q);
    var a, r := Quot(value, m * q), Kept(value, count);
    Assoc(a, m, q);
    QuotRemUnique(value, q, a * m, r);
  }

  /** The value cut at `k` bits. */
  lemma {:induction false} ValueCut(value: nat, n: nat, k: nat, length: nat)
    requires value < Pow2(n) && k <= n
    ensures Rem(value, Pow2(k)) < Pow2(k) && Quot(value, Pow2(k)) < Pow2(n - k)
    ensures value * Pow2(length) == Rem(value, Pow2(k)) * Pow2(length) + Quot(value, Pow2(k)) * Pow2(length + k)
  {
    hide Pow2;
    ShiftedBelow(value, n, k);
    Pow2Add(k, length);
    QuotRem(value, Pow2(k));
    var a, r := Quot(value, Pow2(k)), Rem(value, Pow2(k));
    Distribute(r, a * Pow2(k), Pow2(length));
    Assoc(a, Pow2(k), Pow2(length));
  }

  class OutputBitStream {
    var bitBuffer: nat
    var bitCount: nat
    /** What the underlying stream was given. */
    var output: seq<nat>
    /** The bits written so far. */
    ghost var number: nat
    ghost var length: nat

    ghost predicate Valid()
      reads this
    {
      bitCount <= BUFFER_BITS && Holds(output, bitBuffer, bitCount, number, length)
    }

    constructor ()
      ensures Valid() && number == 0 && length == 0
    {
      bitBuffer, bitCount, output, number, length := 0, 0, [], 0, 0;
    }

    method FlushBufferToStream()
      requires Valid()
      modifies this
      ensures Valid() && number == old(number) && length == old(length) && bitCount == old(bitCount) % 8
      ensures old(output) <= output && |output| == |old(output)| + old(bitCount) / 8
    {
      hide Holds, LowBytes, Quot, Pow2;
      var bytesToWrite := bitCount / BYTE_BITS;
      FlushKeeps(output, bitBuffer, bitCount, number, length, bytesToWrite);
      output := output + LowBytes(bitBuffer, bytesToWrite);
      if bitCount == BUFFER_BITS {
        NothingLeft(output, Quot(bitBuffer, Pow2(8 * bytesToWrite)), number, length);
        bitBuffer := 0;
        bitCount := 0;
      } else {
        var bitsWritten := bytesToWrite * BYTE_BITS;
        bitBuffer := Quot(bitBuffer, Pow2(bitsWritten));
        bitCount := bitCount - bitsWritten;
      }
    }

    /** Puts a value above the bits in the buffer. Bits that the value has above the count stay in the buffer and
        break it. */
    method Append(value: nat, count: nat)
      requires Valid() && bitCount + count <= BUFFER_BITS
      modifies this
      ensures bitCount == old(bitCount) + count && output == old(output) && length == old(length) + count
      ensures Kept(value, old(bitCount)) < Pow2(count) ==>
        Valid() && number == old(number) + Raised(Rem(value, Pow2(count)), old(length))
      ensures Kept(value, old(bitCount)) >= Pow2(count) ==> bitBuffer >= Pow2(bitCount)
    {
      hide Holds, Joined, Kept, Rem, Pow2, Raised;
      Appended(output, bitBuffer, bitCount, number, length, value, count);
      bitBuffer := Joined(bitBuffer, value, bitCount);
      number, length := number + Raised(Kept(value, bitCount), length), length + count;
      bitCount := bitCount + count;
    }

    /** Fills the buffer with the low bits of a value and writes it out. */
    method FillAndFlush(value: nat)
      requires Valid() && bitCount < BUFFER_BITS
      modifies this
      ensures Valid() && bitCount == 0 && length == old(length) + (BUFFER_BITS - old(bitCount))
      ensures old(output) <= output && |output| == |old(output)| + 8
      ensures number == old(number) + Raised(Rem(value, Pow2(BUFFER_BITS - old(bitCount))), old(length))
    {
      hide Holds, Pow2, Quot, Rem, And, Kept, Raised;
      var remaining := BUFFER_BITS - bitCount;
      MaskIsRem(value, remaining);
      LowPart(value, bitCount);
      Append(And(value, Pow2(remaining) - 1), remaining);
      FlushBufferToStream();
    }

    /** Writes the low `count0` bits of a value of `width` bits. It does so exactly when no bit of the value above
        them reaches the buffer; otherwise the buffer is left with bits that are not counted. */
    method WriteBits(value0: nat, count0: nat, width: nat)
      requires Valid() && count0 <= width <= BUFFER_BITS && value0 < Pow2(width)
      modifies this
      ensures length == old(length) + count0
      ensures old(bitCount) + count0 < BUFFER_BITS ==> output == old(output) && bitCount == old(bitCount) + count0
      ensures old(bitCount) + count0 >= BUFFER_BITS ==>
        old(output) <= output && |output| == |old(output)| + 8 && bitCount == old(bitCount) + count0 - BUFFER_BITS
      ensures !LeavesStray(old(bitCount), value0, count0) ==>
        Valid() && number == old(number) + Raised(Rem(value0, Pow2(count0)), old(length))
      ensures LeavesStray(old(bitCount), value0, count0) ==> bitBuffer >= Pow2(bitCount) && !Valid()
    {
      hide Holds, Pow2, Quot, Rem, Kept, Raised;
      Pow2Zero();
      NothingRaised(length);
      RemOfOne(value0);
      KeptWhole(value0, width);
      var value, count := value0, count0;
      if bitCount == BUFFER_BITS {
        FlushBufferToStream();
      } else if count >= BUFFER_BITS - bitCount {
        var remaining := BUFFER_BITS - bitCount;
        HighPart(value, count, remaining, length);
        KeptWhole(Quot(value, Pow2(remaining)), width);
        FillAndFlush(value);
        if remaining != width {
          value := Quot(value, Pow2(remaining));
        }
        count := count - remaining;
      }
      if count == 0 {
        return;
      }
      Append(value, count);
      if bitBuffer >= Pow2(bitCount) {
        NotHeld(output, bitBuffer, bitCount, number, length);
      }
    }

    method AlignToByteBoundary()
      requires Valid()
      modifies this
      ensures Valid() && number == old(number) && old(length) <= length < old(length) + 8 && bitCount % 8 == 0
    {
      hide Holds, Pow2;
      HoldsLength(output, bitBuffer, bitCount, number, length);
      var offset := bitCount % BYTE_BITS;
      if offset != 0 {
        ZeroIsClean(bitCount, BYTE_BITS - offset);
        WriteBits(0, BYTE_BITS - offset, 8);
        HoldsLength(output, bitBuffer, bitCount, number, length);
      }
    }

    /** After aligning and flushing, the output alone holds all bits. */
    method Finish()
      requires Valid()
      modifies this
      ensures Digits(256, output) && Val(256, output) == old(number)
      ensures old(length) <= 8 * |output| < old(length) + 8
    {
      hide Holds, Pow2;
      AlignToByteBoundary();
      FlushBufferToStream();
      HoldsAligned(output, bitBuffer, number, length);
    }
  }

  /** A value above `length` bits. */
  ghost function Raised(value: nat, length: nat): nat {
    value * Pow2(length)
  }

  /** The buffer after a value was put above it: sound, or with a bit that is not counted. */
  lemma {:induction false} Appended(output: seq<nat>, buffer: nat, bitCount: nat, number: nat, length: nat, value: nat, count: nat)
    requires Holds(output, buffer, bitCount, number, length) && bitCount + count <= BUFFER_BITS
    ensures var kept := Kept(value, bitCount);
      if kept < Pow2(count) then
        && kept == Rem(value, Pow2(count))
        && Holds(output, Joined(buffer, value, bitCount), bitCount + count, number + Raised(kept, length), length + count)
      else Joined(buffer, value, bitCount) >= Pow2(bitCount + count)
  {
    BufferBelow(output, buffer, bitCount, number, length);
    hide Holds, Joined, Kept, Rem, Pow2, Raised;
    RaisedMeans(Kept(value, bitCount), length);
    var kept := Kept(value, bitCount);
    JoinedAdds(buffer, value, bitCount);
    if kept < Pow2(count) {
      KeptIsLow(value, count, bitCount);
      AppendKeeps(output, buffer, bitCount, number, length, kept, count);
    } else {
      Stray(buffer, kept, bitCount, count);
    }
  }

  /** A bit of the value above the count ends up in the buffer. */
  ghost predicate LeavesStray(bitCount: nat, value: nat, count: nat)
    requires bitCount <= BUFFER_BITS
  {
    && count > 0
    && if bitCount == BUFFER_BITS then value >= Pow2(count)
       else if count >= BUFFER_BITS - bitCount then count > BUFFER_BITS - bitCount && value >= Pow2(count)
       else Kept(value, bitCount) >= Pow2(count)
  }

  lemma {:induction false} Stray(buffer: nat, kept: nat, bitCount: nat, count: nat)
    requires kept >= Pow2(count)
    ensures buffer + kept * Pow2(bitCount) >= Pow2(bitCount + count)
  {
    hide Pow2;
    Pow2Add(count, bitCount);
    MulLe(Pow2(count), kept, Pow2(bitCount));
  }

  lemma {:induction false} NotHeld(output: seq<nat>, buffer: nat, count: nat, number: nat, length: nat)
    requires buffer >= Pow2(count)
    ensures !Holds(output, buffer, count, number, length)
  {
  }

  lemma {:induction false} RaisedMeans(value: nat, length: nat)
    ensures Raised(value, length) == value * Pow2(length)
  {
  }

  lemma {:induction false} NothingRaised(length: nat)
    ensures Raised(0, length) == 0
  {
  }

  lemma {:induction false} RemOfOne(value: nat)
    ensures Rem(value, 1) == 0
  {
  }

  lemma {:induction false} SmallRem(x: nat, m: nat)
    requires x < m
    ensures Rem(x, m) == x
  {
    DivModUnique(x, m, 0, x);
  }

  /** With an empty buffer a shift loses nothing. */
  lemma {:induction false} KeptWhole(value: nat, width: nat)
    requires width <= BUFFER_BITS && value < Pow2(width)
    ensures Kept(value, 0) == value
  {
    Pow2Monotone(width, BUFFER_BITS);
    SmallRem(value, Pow2(BUFFER_BITS));
  }

  lemma {:induction false} LowPart(value: nat, bitCount: nat)
    requires bitCount <= BUFFER_BITS
    ensures var low := Rem(value, Pow2(BUFFER_BITS - bitCount));
      low < Pow2(BUFFER_BITS - bitCount) && Kept(low, bitCount) == low && Rem(low, Pow2(BUFFER_BITS - bitCount)) == low
  {
    var p := Pow2(BUFFER_BITS - bitCount);
    QuotRem(value, p);
    SmallRem(Rem(value, p), p);
  }

  /** The high part fits exactly when the whole does. */
  lemma {:induction false} HighPart(value: nat, count: nat, k: nat, length: nat)
    requires k <= count
    ensures value < Pow2(count) <==> Quot(value, Pow2(k)) < Pow2(count - k)
    ensures Quot(value, Pow2(k)) <= value
    ensures value < Pow2(count) ==> Rem(value, Pow2(count)) == value
    ensures value < Pow2(count) ==> Rem(Quot(value, Pow2(k)), Pow2(count - k)) == Quot(value, Pow2(k))
    ensures value < Pow2(count) ==>
      Raised(Rem(value, Pow2(k)), length) + Raised(Quot(value, Pow2(k)), length + k) == Raised(value, length)
  {
    hide Pow2, Quot, Rem;
    QuotRem(value, Pow2(k));
    MulLe(1, Pow2(k), Quot(value, Pow2(k)));
    if value < Pow2(count) {
      ValueCut(value, count, k, length);
      SmallRem(value, Pow2(count));
      SmallRem(Quot(value, Pow2(k)), Pow2(count - k));
    } else {
      Pow2Add(count - k, k);
      LargeQuotient(value, Pow2(k), Pow2(count - k));
    }
  }

  lemma {:induction false} LargeQuotient(x: nat, q: nat, m: nat)
    requires q >= 1 && x >= m * q
    ensures Quot(x, q) >= m
  {
    QuotRem(x, q);
    Distribute(Quot(x, q), 1, q);
    MulLt(m, Quot(x, q) + 1, q);
  }

  lemma {:induction false} MaskIsRem(value: nat, k: nat)
    ensures And(value, Pow2(k) - 1) == Rem(value, Pow2(k))
  {
    AndMask(value, k);
  }

  lemma {:induction false} ZeroIsClean(bitCount: nat, count: nat)
    requires bitCount <= BUFFER_BITS
    ensures !LeavesStray(bitCount, 0, count) && Rem(0, Pow2(count)) == 0
  {
    SmallRem(0, Pow2(BUFFER_BITS - bitCount));
    SmallRem(0, Pow2(count));
  }

  /** A value that fits into its count leaves nothing behind. */
  lemma {:induction false} FittingIsClean(bitCount: nat, value: nat, count: nat)
    requires bitCount <= BUFFER_BITS && value < Pow2(count)
    ensures !LeavesStray(bitCount, value, count) && Rem(value, Pow2(count)) == value
  {
    SmallRem(value, Pow2(count));
    if bitCount < BUFFER_BITS && count < BUFFER_BITS - bitCount {
      KeptSmall(value, count, bitCount);
    }
  }

  lemma {:induction false} BufferBelow(output: seq<nat>, buffer: nat, count: nat, number: nat, length: nat)
    requires Holds(output, buffer, count, number, length)
    ensures buffer < Pow2(count)
  {
  }

  lemma {:induction false} NothingLeft(output: seq<nat>, buffer: nat, number: nat, length: nat)
    requires Holds(output, buffer, 0, number, length)
    ensures buffer == 0
  {
  }

  // ---------- reading ----------

  /** The bits still to be read, as one number. */
  ghost function Ahead(buffer: nat, count: nat, rest: seq<nat>): int {
    buffer + Pow2(count) * Val(256, rest)
  }

  /** Moving bytes of the stream into the buffer changes nothing. */
  lemma {:induction false} RefillKeeps(buffer: nat, count: nat, rest: seq<nat>, n: nat)
    requires buffer < Pow2(count) && n <= |rest| && Digits(256, rest)
    ensures Val(256, rest[..n]) < Pow2(8 * n)
    ensures buffer + Val(256, rest[..n]) * Pow2(count) < Pow2(count + 8 * n)
    ensures Ahead(buffer + Val(256, rest[..n]) * Pow2(count), count + 8 * n, rest[n..]) == Ahead(buffer, count, rest)
  {
    hide Val, Pow2;
    ValSplit(256, rest, n);
    ValBound(256, rest[..n]);
    Pow256(n);
    Pow2Add(8 * n, count);
    AppendRoom(buffer, Pow2(count), Val(256, rest[..n]), Pow2(8 * n));
    RefillArithmetic(Pow2(count), Val(256, rest[..n]), Val(256, rest[n..]), Pow2(8 * n));
    Pow2Add(count, 8 * n);
  }

  lemma {:induction false} RefillArithmetic(c: int, low: int, high: int, p: int)
    ensures low * c + (c * p) * high == c * (low + high * p)
  {
    Distribute(low, high * p, c);
    Assoc(c, p, high);
  }

  /** The low bits of the buffer are the low bits of all that lies ahead. */
  lemma {:induction false} PeekIsLow(buffer: nat, count: nat, rest: seq<nat>, n: nat)
    requires buffer < Pow2(count) && n <= count
    ensures Ahead(buffer, count, rest) >= 0
    ensures Rem(Ahead(buffer, count, rest), Pow2(n)) == Rem(buffer, Pow2(n))
    ensures Quot(Ahead(buffer, count, rest), Pow2(n)) == Ahead(Quot(buffer, Pow2(n)), count - n, rest)
  {
    hide Val, Pow2;
    var m, h, v := Pow2(n), Pow2(count - n), Val(256, rest);
    Pow2Add(count - n, n);
    QuotRem(buffer, m);
    var a, r := Quot(buffer, m), Rem(buffer, m);
    PeekArithmetic(buffer, a, r, m, h, v);
    assert h * v >= 0 && (h * m) * v >= 0;
    DivModUnique(Ahead(buffer, count, rest), m, a + h * v, r);
  }

  lemma {:induction false} PeekArithmetic(buffer: int, a: int, r: int, m: int, h: int, v: int)
    requires buffer == a * m + r
    ensures buffer + (h * m) * v == (a + h * v) * m + r
  {
    Distribute(a, h * v, m);
    Assoc(h, m, v);
    Assoc(h, v, m);
  }

  datatype ReadResult = Value(value: nat) | EndOfStream | Stuck

  /** How many whole bytes the buffer still takes. */
  function BytesThatFit(bitCount: nat): int {
    (BUFFER_BITS - bitCount) / BYTE_BITS
  }

  /** A request for `count` bits never returns: what waits and the bytes that fit do not satisfy it, and the stream
      behind has more to give, or has not said that it is at its end when the buffer is as full as it gets. */
  predicate NeverReturns(bitCount: nat, ahead: nat, atEnd: bool, eager: bool, count: nat) {
    var fit := BytesThatFit(bitCount);
    && bitCount < count && !atEnd && bitCount + 8 * fit < count
    && (ahead > fit || (ahead == fit && (fit == 0 || !eager)))
  }

  /** Reading some of the bytes that fit does not change whether the request returns. */
  lemma {:induction false} ReadingDecidesNothing(bitCount: nat, ahead: nat, eager: bool, count: nat, n: nat)
    requires bitCount < count <= BUFFER_BITS && n <= ahead && n <= BytesThatFit(bitCount)
    requires n == 0 ==> ahead == 0 && BytesThatFit(bitCount) > 0
    ensures NeverReturns(bitCount, ahead, false, eager, count)
      <==> NeverReturns(bitCount + 8 * n, ahead - n, ahead == n && (n == 0 || eager), eager, count)
  {
  }

  /** Exactly up to 57 bits a request returns in every state of the buffer and of the stream behind. */
  lemma {:induction false} AlwaysReturns(count: nat)
    requires count <= BUFFER_BITS
    ensures (forall bitCount: nat, ahead: nat, atEnd: bool, eager: bool ::
              bitCount <= BUFFER_BITS ==> !NeverReturns(bitCount, ahead, atEnd, eager, count)) <==> count <= 57
  {
    if count > 57 {
      assert NeverReturns(57, 1, false, false, count);
    }
  }

  class InputBitStream {
    var bitBuffer: nat
    var bitCount: nat
    const fillWithZero: bool

    /** The stream behind: the bytes it will still give, and whether it has said that it is at its end. */
    var rest: seq<nat>
    var atEnd: bool
    /** How the stream shortens its reads, and whether it notices its end without an empty read. */
    const shorten: nat -> nat
    const eager: bool
    var calls: nat

    ghost predicate Valid()
      reads this
    {
      bitCount <= BUFFER_BITS && bitBuffer < Pow2(bitCount) && Digits(256, rest) && (atEnd ==> rest == [])
    }

    ghost function Unread(): int
      reads this
    {
      Ahead(bitBuffer, bitCount, rest)
    }

    ghost function Available(): nat
      reads this
    {
      bitCount + 8 * |rest|
    }

    constructor (bytes: seq<nat>, fillWithZero: bool, shorten: nat -> nat, eager: bool)
      requires Digits(256, bytes)
      ensures Valid() && Unread() == Val(256, bytes) && Available() == 8 * |bytes|
      ensures this.fillWithZero == fillWithZero
    {
      bitBuffer, bitCount, calls := 0, 0, 0;
      this.fillWithZero, this.shorten, this.eager := fillWithZero, shorten, eager;
      rest, atEnd := bytes, eager && bytes == [];
    }

    /** `read_some` of the stream behind: at least one byte, unless none is asked for or left. */
    method ReadSome(max: nat) returns (bytes: seq<nat>)
      modifies this`rest, this`atEnd, this`calls
      requires atEnd ==> rest == []
      ensures |bytes| <= max && old(rest) == bytes + rest
      ensures max > 0 && old(rest) != [] ==> |bytes| > 0
      ensures atEnd <==> old(atEnd) || (max > 0 && rest == [] && (bytes == [] || eager))
    {
      var want := if shorten(calls) == 0 then 1 else shorten(calls);
      var limit := if max < |rest| then max else |rest|;
      var n := if want < limit then want else limit;
      calls := calls + 1;
      bytes := rest[..n];
      rest := rest[n..];
      if max > 0 && rest == [] && (n == 0 || eager) {
        atEnd := true;
      }
    }

    /** A request for so many bits never returns. */
    ghost predicate WillBeStuck(count: nat)
      reads this
    {
      NeverReturns(bitCount, |rest|, atEnd, eager, count)
    }

    /** One round of the refill loop: false when it makes no progress and never will. */
    method RefillOnce(ghost requested: nat) returns (moved: bool)
      requires Valid() && !atEnd && bitCount < requested <= BUFFER_BITS
      modifies this`rest, this`atEnd, this`calls, this`bitBuffer, this`bitCount
      ensures Valid() && Unread() == old(Unread()) && Available() == old(Available())
      ensures moved <==> old(bitCount) <= 56
      ensures moved ==> |rest| < |old(rest)| || atEnd
      ensures moved ==> WillBeStuck(requested) == old(WillBeStuck(requested))
      ensures !moved ==> old(WillBeStuck(requested))
      ensures !moved ==> !atEnd && bitCount == old(bitCount) && rest == old(rest) && bitBuffer == old(bitBuffer)
    {
      hide Pow2, Val;
      var bytesToRead := BytesThatFit(bitCount);
      ghost var was := rest;
      var bytes := ReadSome(bytesToRead);
      if bytesToRead > 0 {
        ReadingDecidesNothing(bitCount, |was|, eager, requested, |bytes|);
      }
      assert was[..|bytes|] == bytes && was[|bytes|..] == rest;
      RefillKeeps(bitBuffer, bitCount, was, |bytes|);
      JoinedAdds(bitBuffer, Val(256, bytes), bitCount);
      KeptSmall(Val(256, bytes), 8 * |bytes|, bitCount);
      bitBuffer := Joined(bitBuffer, Val(256, bytes), bitCount);
      bitCount := bitCount + |bytes| * BYTE_BITS;
      moved := bytesToRead > 0;
    }

    /** Fills the buffer to at least `requested` bits. */
    method RefillBufferFromStream(requested: nat) returns (r: ReadResult)
      requires Valid() && requested <= BUFFER_BITS
      modifies this`rest, this`atEnd, this`calls, this`bitBuffer, this`bitCount
      ensures Valid() && Unread() == old(Unread())
      ensures r.Stuck? <==> old(WillBeStuck(requested))
      ensures r.Value? ==> bitCount >= requested
      ensures r.Stuck? ==> 57 <= bitCount < requested && !atEnd
      ensures r.EndOfStream? ==> !fillWithZero && old(Available()) < requested
      ensures r.Value? && !fillWithZero ==> old(Available()) >= requested
      ensures Available() == if r.Value? && old(Available()) < requested then requested else old(Available())
    {
      hide Pow2, Val;
      while requested > bitCount
        invariant Valid() && Unread() == old(Unread()) && Available() == old(Available())
        invariant WillBeStuck(requested) == old(WillBeStuck(requested))
        decreases |rest|, if atEnd then 0 else 1
      {
        if atEnd {
          if fillWithZero {
            MoreRoom(bitBuffer, bitCount, requested, rest);
            bitCount := requested;
            return Value(0);
          }
          return EndOfStream;
        }
        var moved := RefillOnce(requested);
        if !moved {
          return Stuck;
        }
      }
      return Value(0);
    }

    /** The next `count` bits; the reader then stands behind them. */
    method ReadBits(count: nat) returns (r: ReadResult)
      requires Valid() && count < BUFFER_BITS
      modifies this`rest, this`atEnd, this`calls, this`bitBuffer, this`bitCount
      ensures Valid() && (r.Stuck? <==> old(WillBeStuck(count))) && (count <= 57 ==> !r.Stuck?)
      ensures count <= old(bitCount) + 8 * BytesThatFit(old(bitCount)) ==> !r.Stuck?
      ensures !r.Stuck? ==> (r.EndOfStream? <==> !fillWithZero && old(Available()) < count)
      ensures !r.Value? ==> Unread() == old(Unread())
      ensures r.Value? ==> old(Unread()) >= 0 && r.value == Rem(old(Unread()), Pow2(count))
      ensures r.Value? ==> Unread() == Quot(old(Unread()), Pow2(count))
      ensures !r.Value? ==> Available() == old(Available())
      ensures r.Value? ==> Available() == if old(Available()) < count then 0 else old(Available()) - count
    {
      hide Pow2, Val, Ahead, Quot, Rem, And;
      if count > bitCount {
        r := RefillBufferFromStream(count);
        if !r.Value? {
          return;
        }
      }
      PeekIsLow(bitBuffer, bitCount, rest, count);
      MaskIsRem(bitBuffer, count);
      ShiftedBelow(bitBuffer, bitCount, count);
      r := Value(And(bitBuffer, Pow2(count) - 1));
      bitBuffer := Quot(bitBuffer, Pow2(count));
      bitCount := bitCount - count;
    }
  }

  lemma {:induction false} MoreRoom(buffer: nat, count: nat, count': nat, rest: seq<nat>)
    requires buffer < Pow2(count) && count <= count' && rest == []
    ensures buffer < Pow2(count') && Ahead(buffer, count', rest) == Ahead(buffer, count, rest)
  {
    Pow2Monotone(count, count');
    ValZero(256, rest);
  }

  // ---------- what is written is read back ----------

  datatype Item = Item(value: nat, count: nat)

  ghost predicate Fits(item: Item) {
    item.count <= 57 && item.value < Pow2(item.count)
  }

  /** All items as one number, the first lowest. */
  ghost function Packed(items: seq<Item>): nat {
    if items == [] then 0 else Packed(items[..|items| - 1]) + items[|items| - 1].value * Pow2(Bitlength(items[..|items| - 1]))
  }

  ghost function Bitlength(items: seq<Item>): nat {
    if items == [] then 0 else Bitlength(items[..|items| - 1]) + items[|items| - 1].count
  }

  lemma {:induction false} PackedNext(items: seq<Item>, i: nat)
    requires i < |items|
    ensures Packed(items[..i + 1]) == Packed(items[..i]) + items[i].value * Pow2(Bitlength(items[..i]))
    ensures Bitlength(items[..i + 1]) == Bitlength(items[..i]) + items[i].count
  {
    assert items[..i + 1][..i] == items[..i];
  }

  /** The first item is the low end of the number. */
  lemma {:induction false} PackedFirst(items: seq<Item>)
    requires items != []
    ensures Packed(items) == items[0].value + Pow2(items[0].count) * Packed(items[1..])
    ensures Bitlength(items) == items[0].count + Bitlength(items[1..])
  {
    var n := |items| - 1;
    var tail, last := items[1..], items[n];
    if n == 0 {
      assert items[..0] == [] && tail == [];
      Pow2Zero();
    } else {
      var init := items[..n];
      PackedFirst(init);
      assert tail[..n - 1] == init[1..] && tail[n - 1] == last;
      var c, l := Pow2(items[0].count), Bitlength(init[1..]);
      Pow2Add(items[0].count, l);
      FirstArithmetic(c, Packed(init[1..]), last.value, Pow2(l));
    }
  }

  lemma {:induction false} FirstArithmetic(c: int, p: int, v: int, l: int)
    ensures c * (p + v * l) == c * p + v * (c * l)
  {
    Distribute(p, v * l, c);
    Assoc(v, l, c);
  }

  /** Taking the low bits off a packed number takes the first item off. */
  lemma {:induction false} PackedUnpacks(items: seq<Item>)
    requires items != [] && Fits(items[0])
    ensures Rem(Packed(items), Pow2(items[0].count)) == items[0].value
    ensures Quot(Packed(items), Pow2(items[0].count)) == Packed(items[1..])
  {
    PackedFirst(items);
    hide Packed, Bitlength, Pow2, Quot, Rem;
    QuotRemUnique(Packed(items), Pow2(items[0].count), Packed(items[1..]), items[0].value);
  }

  method WriteAll(items: seq<Item>) returns (bytes: seq<nat>)
    requires forall i :: 0 <= i < |items| ==> Fits(items[i])
    ensures Digits(256, bytes) && Val(256, bytes) == Packed(items)
    ensures Bitlength(items) <= 8 * |bytes| < Bitlength(items) + 8
  {
    hide Packed, Bitlength, Holds, LeavesStray, Rem, Pow2;
    var stream := new OutputBitStream();
    NothingPacked();
    assert items[..0] == [];
    for i := 0 to |items|
      invariant fresh(stream) && stream.Valid()
      invariant stream.number == Packed(items[..i]) && stream.length == Bitlength(items[..i])
    {
      PackedNext(items, i);
      assert Fits(items[i]);
      FittingIsClean(stream.bitCount, items[i].value, items[i].count);
      Pow2Monotone(items[i].count, BUFFER_BITS);
      stream.WriteBits(items[i].value, items[i].count, BUFFER_BITS);
    }
    assert items[..|items|] == items;
    stream.Finish();
    bytes := stream.output;
  }

  lemma {:induction false} NothingPacked()
    ensures Packed([]) == 0 && Bitlength([]) == 0
  {
  }

  lemma {:induction false} HoldsLength(output: seq<nat>, buffer: nat, count: nat, number: nat, length: nat)
    requires Holds(output, buffer, count, number, length)
    ensures length == 8 * |output| + count
  {
  }

  lemma {:induction false} HoldsAligned(output: seq<nat>, buffer: nat, number: nat, length: nat)
    requires Holds(output, buffer, 0, number, length)
    ensures Digits(256, output) && Val(256, output) == number && length == 8 * |output|
  {
    Pow2Zero();
  }

  /** Any items written, aligned and flushed come back value for value, however the stream shortens its reads. */
  method RoundTrip(items: seq<Item>, shorten: nat -> nat, eager: bool, fillWithZero: bool) returns (values: seq<nat>)
    requires forall i :: 0 <= i < |items| ==> Fits(items[i])
    ensures |values| == |items| && forall i :: 0 <= i < |items| ==> values[i] == items[i].value
  {
    hide Packed, Bitlength, Pow2, Val, Quot, Rem;
    var bytes := WriteAll(items);
    var stream := new InputBitStream(bytes, fillWithZero, shorten, eager);
    values := [];
    assert items[0..] == items;
    for i := 0 to |items|
      invariant fresh(stream) && stream.Valid() && stream.fillWithZero == fillWithZero
      invariant stream.Unread() == Packed(items[i..])
      invariant !fillWithZero ==> stream.Available() >= Bitlength(items[i..])
      invariant |values| == i && forall k :: 0 <= k < i ==> values[k] == items[k].value
    {
      ghost var tail := items[i..];
      assert tail[0] == items[i] && tail[1..] == items[i + 1..];
      assert Fits(items[i]);
      PackedFirst(tail);
      PackedUnpacks(tail);
      var r := stream.ReadBits(items[i].count);
      values := values + [r.value];
    }
  }

  /** A call that never returns: nine bytes, of which seven bits are read first, do not give the next 58. */
  method StuckCall(shorten: nat -> nat, eager: bool, fillWithZero: bool) returns (r: ReadResult)
    ensures r.Stuck?
  {
    hide Pow2, Val, Ahead;
    var bytes := [0, 0, 0, 0, 0, 0, 0, 0, 0];
    var stream := new InputBitStream(bytes, fillWithZero, shorten, eager);
    r := stream.ReadBits(7);
    r := stream.ReadBits(58);
  }

  /** Written as one bit, the value three leaves its second bit in the buffer. */
  method StrayBit() returns (stream: OutputBitStream)
    ensures stream.bitBuffer >= Pow2(stream.bitCount) && !stream.Valid()
  {
    assert Pow2(1) == 2 * Pow2(0) && Pow2(2) == 2 * Pow2(1);
    Pow2Monotone(2, BUFFER_BITS);
    KeptWhole(3, 2);
    hide Pow2;
    stream := new OutputBitStream();
    stream.WriteBits(3, 1, BUFFER_BITS);
  }
}
