/** `AK/CircularBuffer.cpp`: a byte queue that keeps its recent past. */
module CircularBuffers {
  import opened Common
  import Bits

  /** The index in the buffer of a position that runs at most once past either end. */
  function Slot(cap: nat, p: int): int {
    if p < 0 then p + cap else if p >= cap then p - cap else p
  }

  /** The byte written `j` steps before the write position `end`. */
  ghost predicate Kept(b: seq<nat>, end: int, w: seq<nat>, j: nat) {
    1 <= j <= |w| && 0 <= Slot(|b|, end - j) < |b| && b[Slot(|b|, end - j)] == w[|w| - j]
  }

  /** The buffer holds the last `limit` bytes of everything written. */
  ghost predicate Window(b: seq<nat>, end: int, limit: nat, w: seq<nat>) {
    forall j :: 1 <= j <= limit ==> Kept(b, end, w, j)
  }

  ghost predicate Replaced(b: seq<nat>, b': seq<nat>, start: nat, data: seq<nat>) {
    && |b'| == |b| && start + |data| <= |b|
    && (forall i :: 0 <= i < |b| && (i < start || i >= start + |data|) ==> b'[i] == b[i])
    && (forall i :: 0 <= i < |data| ==> b'[start + i] == data[i])
  }

  /** Writing at the write position makes the data the newest bytes and forgets only the oldest. */
  lemma {:induction false} WindowWrite(b: seq<nat>, b': seq<nat>, end: nat, limit: nat, w: seq<nat>, start: nat, data: seq<nat>)
    requires Window(b, end, limit, w) && limit <= |w| && limit <= |b|
    requires Replaced(b, b', start, data) && start == Slot(|b|, end) && (end + |data| < 2 * |b| || |b| == 0)
    ensures Window(b', end + |data|, Min(limit + |data|, |b|), w + data)
  {
    var k := |data|;
    var end', w' := end + k, w + data;
    forall j | 1 <= j <= Min(limit + k, |b|)
      ensures Kept(b', end', w', j)
    {
      if j <= k {
        var i := k - j;
        assert Slot(|b|, end + k - j) == start + i;
        assert w'[|w'| - j] == data[i];
      } else {
        assert Kept(b, end, w, j - k);
        assert w'[|w'| - j] == w[|w| - (j - k)];
      }
    }
  }

  /** Moving the read position does not move the write position. */
  lemma {:induction false} WindowRead(b: seq<nat>, end: nat, limit: nat, w: seq<nat>)
    requires Window(b, end, limit, w) && limit <= |b| <= end < 2 * |b|
    ensures Window(b, end - |b|, limit, w)
  {
    var end' := end - |b|;
    forall j | 1 <= j <= limit
      ensures Kept(b, end', w, j)
    {
      assert Kept(b, end, w, j);
    }
  }

  /** Bytes read in a row from the window are the bytes written in a row. */
  lemma {:induction false} WindowSlice(b: seq<nat>, end: int, limit: nat, w: seq<nat>, distance: nat, start: nat, n: nat)
    requires Window(b, end, limit, w) && n <= distance <= limit <= |w|
    requires start == Slot(|b|, end - distance) && start + n <= |b| && 0 <= end < 2 * |b| && distance <= |b|
    ensures b[start..start + n] == w[|w| - distance..][..n]
  {
    var read, wrote := b[start..start + n], w[|w| - distance..][..n];
    forall i | 0 <= i < n
      ensures read[i] == wrote[i]
    {
      assert Kept(b, end, w, distance - i);
    }
  }

  datatype Span = Span(start: nat, size: nat)

  class CircularBuffer {
    const buffer: array<nat>
    var readingHead: nat
    var usedSpace: nat
    var seekbackLimit: nat

    /** Every byte written since the buffer was last empty and cleared. */
    ghost var written: seq<nat>

    ghost predicate Valid()
      reads this, buffer
    {
      && usedSpace <= seekbackLimit == Min(|written|, buffer.Length)
      && (readingHead < buffer.Length || readingHead == buffer.Length == 0)
      && Window(buffer[..], readingHead + usedSpace, seekbackLimit, written)
    }

    /** The bytes waiting to be read, oldest first. */
    ghost function Contents(): seq<nat>
      requires usedSpace <= |written|
      reads this
    {
      written[|written| - usedSpace..]
    }

    constructor CreateEmpty(size: nat)
      ensures Valid() && written == [] && usedSpace == 0 && readingHead == 0 && buffer.Length == size && fresh(buffer)
    {
      buffer := new nat[size];
      readingHead, usedSpace, seekbackLimit := 0, 0, 0;
      written := [];
    }

    function EmptySpace(): int
      reads this
    {
      buffer.Length - usedSpace
    }

    predicate IsWrappingAround()
      reads this
    {
      buffer.Length <= readingHead + usedSpace
    }

    method Clear()
      requires Valid()
      modifies this
      ensures Valid() && written == [] && usedSpace == 0 && readingHead == 0
    {
      readingHead, usedSpace, seekbackLimit := 0, 0, 0;
      written := [];
    }

    lemma {:induction false} InBounds()
      requires Valid()
      ensures usedSpace <= seekbackLimit == Min(|written|, buffer.Length)
      ensures readingHead < buffer.Length || readingHead == buffer.Length == 0
    {
    }

    // ---------- spans ----------

    function NextWriteSpan(): (s: Span)
      requires usedSpace <= buffer.Length && (readingHead < buffer.Length || readingHead == buffer.Length == 0)
      reads this
      ensures s.start + s.size <= buffer.Length && s.size <= EmptySpace()
      ensures s.size == 0 <==> EmptySpace() == 0
      ensures s.start + s.size == buffer.Length || s.size == EmptySpace()
      ensures s.start == Slot(buffer.Length, readingHead + usedSpace)
    {
      if IsWrappingAround() then Span(readingHead + usedSpace - buffer.Length, buffer.Length - usedSpace)
      else Span(readingHead + usedSpace, buffer.Length - (readingHead + usedSpace))
    }

    function NextReadSpan(offset: nat): (s: Span)
      requires usedSpace <= buffer.Length && (readingHead < buffer.Length || readingHead == buffer.Length == 0)
      reads this
      ensures s.start + s.size <= buffer.Length && (s.size == 0 <==> usedSpace <= offset)
      ensures s.size > 0 ==> s.start == Slot(buffer.Length, readingHead + offset) && offset + s.size <= usedSpace
      ensures s.size > 0 ==> s.start + s.size == buffer.Length || offset + s.size == usedSpace
    {
      if offset > 0 then
        if offset >= usedSpace then Span(0, 0) else
        SlotIsModulo(buffer.Length, readingHead + offset - buffer.Length);
        var readingHead' := (readingHead + offset) % buffer.Length;
        Span(readingHead', Min(buffer.Length - readingHead', usedSpace - offset))
      else Span(readingHead, Min(buffer.Length - readingHead, usedSpace))
    }

    /** Bytes in a row, `distance` before the write position, are the bytes written in a row. */
    lemma {:induction false} ChunkIsWritten(distance: nat, start: nat, n: nat)
      requires Valid() && n <= distance <= seekbackLimit && start + n <= buffer.Length && buffer.Length > 0
      requires start == Slot(buffer.Length, readingHead + usedSpace - distance)
      ensures distance <= |written| && buffer[start..start + n] == written[|written| - distance..][..n]
    {
      hide Window, Slot;
      WindowSlice(buffer[..], readingHead + usedSpace, seekbackLimit, written, distance, start, n);
      assert buffer[..][start..start + n] == buffer[start..start + n];
    }

    /** The span at an offset holds the waiting bytes that follow the first `offset` ones. */
    lemma {:induction false} ReadSpanHolds(offset: nat)
      requires Valid()
      ensures var s := NextReadSpan(offset);
              s.size > 0 ==> buffer[s.start..s.start + s.size] == Contents()[offset..offset + s.size]
    {
      hide Window;
      var s := NextReadSpan(offset);
      if s.size > 0 {
        var distance := usedSpace - offset;
        ChunkIsWritten(distance, s.start, s.size);
        DataAt(written, Contents(), distance, offset, s.size);
      }
    }

    function NextSeekbackSpan(distance: nat): (s: Span)
      requires readingHead < buffer.Length && usedSpace <= buffer.Length && distance <= seekbackLimit <= buffer.Length
      reads this
      ensures s.start == Slot(buffer.Length, readingHead + usedSpace - distance)
      ensures s.start + s.size <= buffer.Length && s.size == Min(buffer.Length - s.start, distance)
      ensures s.size == 0 <==> distance == 0
    {
      var end: int := readingHead + usedSpace;
      SlotIsModulo(buffer.Length, end - distance);
      var readOffset := (buffer.Length + (end - distance)) % buffer.Length;
      Span(readOffset, Min(buffer.Length - readOffset, distance))
    }

    // ---------- write ----------

    /** Copies `n` bytes into the buffer as `memmove` does; the source may be the buffer itself. */
    method Transfer(source: array<nat>, from: nat, n: nat, start: nat)
      requires from + n <= source.Length && start + n <= buffer.Length
      modifies buffer
      ensures Replaced(old(buffer[..]), buffer[..], start, old(source[from..from + n]))
      ensures source != buffer ==> source[..] == old(source[..])
    {
      var chunk := source[from..from + n];
      for k := 0 to n
        invariant forall i :: 0 <= i < buffer.Length && (i < start || i >= start + k) ==> buffer[i] == old(buffer[i])
        invariant forall i :: 0 <= i < k ==> buffer[start + i] == chunk[i]
        invariant source != buffer ==> source[..] == old(source[..])
      {
        buffer[start + k] := chunk[k];
      }
    }

    /** One round of the loop in `write`. */
    method WriteChunk(source: array<nat>, from: nat, n: nat)
      requires Valid() && from + n <= source.Length && n <= NextWriteSpan().size
      modifies this, buffer
      ensures Valid() && written == old(written) + old(source[from..from + n])
      ensures usedSpace == old(usedSpace) + n && readingHead == old(readingHead)
      ensures Replaced(old(buffer[..]), buffer[..], old(NextWriteSpan().start), old(source[from..from + n]))
      ensures source != buffer ==> source[..] == old(source[..])
    {
      hide Window, Replaced;
      ghost var data, was := source[from..from + n], buffer[..];
      var start := NextWriteSpan().start;
      Transfer(source, from, n, start);
      WindowWrite(was, buffer[..], readingHead + usedSpace, seekbackLimit, written, start, data);
      usedSpace := usedSpace + n;
      seekbackLimit := seekbackLimit + n;
      if seekbackLimit > buffer.Length {
        seekbackLimit := buffer.Length;
      }
      written := written + data;
    }

    /** Copying `len` bytes that start at `from` in the buffer itself, `back` bytes before the write position. */
    ghost predicate SelfCopy(from: nat, len: nat, back: nat)
      reads this
    {
      len <= back <= buffer.Length && Slot(buffer.Length, readingHead + usedSpace) == Slot(buffer.Length, from + back)
    }

    /** One round of `write`, with `done` bytes of the data already written. */
    method WriteRound(source: array<nat>, from: nat, done: nat, n: nat, ghost data: seq<nat>, ghost end: nat, ghost back: nat)
      requires Valid() && Pending(source[..], from, data, done) && done + n <= |data| && from + |data| <= source.Length
      requires 0 < n <= NextWriteSpan().size && readingHead + usedSpace == end + done
      requires source == buffer ==>
        |data| <= back <= buffer.Length && Slot(buffer.Length, end) == Slot(buffer.Length, from + back)
      modifies this, buffer
      ensures Valid() && readingHead == old(readingHead) && usedSpace == old(usedSpace) + n
      ensures written == old(written) + data[done..done + n] && Pending(source[..], from, data, done + n)
    {
      hide Valid, Pending, Replaced, Slot, NextWriteSpan;
      InBounds();
      ghost var start, was := NextWriteSpan().start, source[..];
      PendingChunk(was, from, data, done, n);
      assert source[from + done..from + done + n] == was[from + done..from + done + n];
      WriteChunk(source, from + done, n);
      if source == buffer {
        PendingSelf(was, source[..], from, data, done, n, end, back, start);
      } else {
        PendingOther(was, from, data, done, n);
      }
    }

    /** Writes as much as fits. The source may be the buffer itself: no byte is overwritten before it is copied. */
    method Write(source: array<nat>, from: nat, len: nat, ghost back: nat) returns (count: nat)
      requires Valid() && from + len <= source.Length
      requires source == buffer ==> SelfCopy(from, len, back)
      modifies this, buffer
      ensures Valid() && readingHead == old(readingHead)
      ensures count == Min(len, old(EmptySpace())) && usedSpace == old(usedSpace) + count
      ensures written == old(written) + old(source[from..from + len])[..count]
    {
      hide Valid, Pending, Slot, NextWriteSpan;
      ghost var data, end := source[from..from + len], readingHead + usedSpace;
      InBounds();
      PendingAtFirst(source[..], from, len);
      assert source[..][from..from + len] == data;
      var remaining := len;
      assert data[..0] == [];
      while remaining > 0
        invariant 0 <= remaining <= len
        invariant Valid() && readingHead == old(readingHead) && usedSpace == old(usedSpace) + (len - remaining)
        invariant written == old(written) + data[..len - remaining]
        invariant Pending(source[..], from, data, len - remaining)
      {
        InBounds();
        var size := NextWriteSpan().size;
        if size == 0 {
          break;
        }
        var n := Min(size, remaining);
        WriteRound(source, from, len - remaining, n, data, end, back);
        Appended(old(written), data, len - remaining, n);
        remaining := remaining - n;
      }
      InBounds();
      count := len - remaining;
    }

    // ---------- read ----------

    method CopyOut(start: nat, dest: array<nat>, to: nat, ghost chunk: seq<nat>, n: nat)
      requires dest != buffer && n == |chunk| && start + n <= buffer.Length && to + n <= dest.Length
      requires buffer[start..start + n] == chunk
      modifies dest
      ensures Overlaid(old(dest[..]), dest[..], to, chunk)
    {
      hide Overlaid;
      OverlaidNothing(dest[..], to, chunk);
      for k := 0 to n
        invariant Overlaid(old(dest[..]), dest[..], to, chunk[..k])
      {
        ghost var now := dest[..];
        assert chunk[k] == buffer[start + k];
        dest[to + k] := buffer[start + k];
        OverlaidNext(old(dest[..]), now, to, chunk, k);
        assert dest[..] == now[to + k := chunk[k]];
      }
      assert chunk[..n] == chunk;
    }

    /** Copies `n` bytes that start `distance` before the write position, without a break, into the destination. */
    method CopyChunk(bytes: array<nat>, done: nat, n: nat, distance: nat, start: nat, ghost data: seq<nat>, ghost was: seq<nat>)
      requires Valid() && bytes != buffer && Filled(bytes[..], data, was, done) && done + n <= |was|
      requires n <= distance <= seekbackLimit && start == Slot(buffer.Length, readingHead + usedSpace - distance)
      requires start + n <= buffer.Length && buffer.Length > 0
      requires done + distance == |data| <= |written| && data == written[|written| - |data|..]
      modifies bytes
      ensures Valid() && Filled(bytes[..], data, was, done + n)
    {
      hide Valid, Slot, Filled, Overlaid;
      ghost var now := bytes[..];
      FilledMeans(now, data, was, done);
      ChunkIsWritten(distance, start, n);
      DataAt(written, data, distance, done, n);
      CopyOut(start, bytes, done, data[done..done + n], n);
      FilledFurther(now, bytes[..], data, was, done, n);
    }

    /** Drops `n` bytes at the read position. */
    method Advance(n: nat)
      requires Valid() && n <= NextReadSpan(0).size
      modifies this`usedSpace, this`readingHead
      ensures Valid() && usedSpace == old(usedSpace) - n && readingHead == Slot(buffer.Length, old(readingHead) + n)
    {
      hide Window;
      usedSpace := usedSpace - n;
      readingHead := readingHead + n;
      if readingHead >= buffer.Length {
        if buffer.Length > 0 {
          WindowRead(buffer[..], readingHead + usedSpace, seekbackLimit, written);
        }
        readingHead := readingHead - buffer.Length;
      }
    }

    /** One round of `read`. */
    method ReadChunk(bytes: array<nat>, done: nat, n: nat, ghost data: seq<nat>, ghost was: seq<nat>)
      requires Valid() && bytes != buffer && Filled(bytes[..], data, was, done) && done + n <= |was|
      requires 0 < n <= NextReadSpan(0).size
      requires done + usedSpace == |data| <= |written| && data == written[|written| - |data|..]
      modifies this`usedSpace, this`readingHead, bytes
      ensures Valid() && usedSpace == old(usedSpace) - n && readingHead == Slot(buffer.Length, old(readingHead) + n)
      ensures Filled(bytes[..], data, was, done + n)
    {
      hide Valid, Filled, NextReadSpan;
      InBounds();
      CopyChunk(bytes, done, n, usedSpace, NextReadSpan(0).start, data, was);
      Advance(n);
    }

    /** Moves the oldest bytes out of the queue, as many as there are and as fit. */
    method Read(bytes: array<nat>) returns (count: nat)
      requires Valid() && bytes != buffer
      modifies this`usedSpace, this`readingHead, bytes
      ensures Valid() && count == Min(bytes.Length, old(usedSpace)) && usedSpace == old(usedSpace) - count
      ensures readingHead == Slot(buffer.Length, old(readingHead) + count)
      ensures bytes[..] == old(Contents())[..count] + old(bytes[..])[count..]
    {
      hide Valid, Filled, Slot;
      InBounds();
      ghost var data, was := Contents(), bytes[..];
      count := ReadLoop(bytes, data, was);
      FilledMeans(bytes[..], data, was, count);
    }

    method ReadLoop(bytes: array<nat>, ghost data: seq<nat>, ghost was: seq<nat>) returns (count: nat)
      requires Valid() && bytes != buffer && was == bytes[..] && usedSpace <= |written| && data == Contents()
      modifies this`usedSpace, this`readingHead, bytes
      ensures Valid() && count == Min(bytes.Length, old(usedSpace)) && usedSpace == old(usedSpace) - count
      ensures readingHead == Slot(buffer.Length, old(readingHead) + count) && Filled(bytes[..], data, was, count)
    {
      hide Valid, Filled, NextReadSpan, Slot;
      InBounds();
      var remaining: nat := bytes.Length;
      FilledAtFirst(was, data);
      SlotInside(buffer.Length, readingHead);
      while remaining > 0
        invariant remaining <= bytes.Length && bytes.Length - remaining <= |data|
        invariant Valid() && usedSpace == old(usedSpace) - (bytes.Length - remaining)
        invariant readingHead == Slot(buffer.Length, old(readingHead) + (bytes.Length - remaining))
        invariant Filled(bytes[..], data, was, bytes.Length - remaining)
      {
        InBounds();
        var span := NextReadSpan(0);
        if span.size == 0 {
          break;
        }
        var n := Min(span.size, remaining);
        SlotTwice(buffer.Length, old(readingHead), bytes.Length - remaining, n);
        ReadChunk(bytes, bytes.Length - remaining, n, data, was);
        remaining := remaining - n;
      }
      InBounds();
      count := bytes.Length - remaining;
    }

    /** Drops bytes without copying them. */
    method Discard(size: nat) returns (ok: bool)
      requires Valid() && (size <= usedSpace ==> buffer.Length > 0)
      modifies this`usedSpace, this`readingHead
      ensures Valid() && ok == (size <= old(usedSpace)) && usedSpace == old(usedSpace) - (if ok then size else 0)
      ensures readingHead == if ok then Slot(buffer.Length, old(readingHead) + size) else old(readingHead)
    {
      hide Window;
      if usedSpace < size {
        return false;
      }
      if readingHead + size >= buffer.Length {
        WindowRead(buffer[..], readingHead + usedSpace, seekbackLimit, written);
      }
      SlotIsModulo(buffer.Length, readingHead + size - buffer.Length);
      usedSpace := usedSpace - size;
      readingHead := (readingHead + size) % buffer.Length;
      ok := true;
    }

    /** Reads bytes that start `distance` before the write position, already read or not. */
    method ReadWithSeekback(bytes: array<nat>, distance: nat) returns (ok: bool, count: nat)
      requires Valid() && bytes != buffer && (distance <= seekbackLimit && bytes.Length > 0 ==> buffer.Length > 0)
      modifies bytes
      ensures Valid() && ok == (distance <= seekbackLimit) && count == (if ok then Min(bytes.Length, distance) else 0)
      ensures ok ==> bytes[..] == written[|written| - distance..][..count] + old(bytes[..])[count..]
      ensures !ok ==> bytes[..] == old(bytes[..])
    {
      if distance > seekbackLimit {
        return false, 0;
      }
      ok := true;
      count := SeekbackLoop(bytes, distance);
    }

    method SeekbackLoop(bytes: array<nat>, distance0: nat) returns (count: nat)
      requires Valid() && bytes != buffer && distance0 <= seekbackLimit && (bytes.Length > 0 ==> buffer.Length > 0)
      modifies bytes
      ensures Valid() && count == Min(bytes.Length, distance0)
      ensures Filled(bytes[..], written[|written| - distance0..], old(bytes[..]), count)
    {
      hide Window, Slot, Filled, Overlaid, NextSeekbackSpan;
      ghost var data, was := written[|written| - distance0..], bytes[..];
      var distance: nat, remaining: nat := distance0, bytes.Length;
      FilledAtFirst(was, data);
      while remaining > 0
        invariant remaining <= bytes.Length && distance == distance0 - (bytes.Length - remaining) >= 0
        invariant Valid()
        invariant Filled(bytes[..], data, was, bytes.Length - remaining)
      {
        var span := NextSeekbackSpan(distance);
        if span.size == 0 {
          break;
        }
        var n := Min(span.size, remaining);
        CopyChunk(bytes, bytes.Length - remaining, n, distance, span.start, data, was);
        distance := distance - n;
        remaining := remaining - n;
      }
      count := bytes.Length - remaining;
    }

    // ---------- copy ----------

    /** One round of the copy: as much as lies in a row at `distance`, and is wanted, and fits. */
    method CopyRound(distance: nat, remaining: nat) returns (count: nat)
      requires Valid() && 1 <= distance <= seekbackLimit
      modifies this, buffer
      ensures Valid() && readingHead == old(readingHead) && usedSpace == old(usedSpace) + count
      ensures count == Round(buffer.Length, old(readingHead + usedSpace), distance, remaining, old(EmptySpace()))
      ensures written == old(written) + old(written)[|old(written)| - distance..][..count]
    {
      hide Valid, NextSeekbackSpan;
      InBounds();
      var span := NextSeekbackSpan(distance);
      var len := Min(span.size, remaining);
      ghost var recent := written[|written| - distance..];
      ChunkIsWritten(distance, span.start, len);
      count := Write(buffer, span.start, len, distance);
      PrefixOfPrefix(recent, len, count);
    }

    /** The loop of the copy. The doubled distance may run past the limit, which fails a check and ends the
        program; `RunsPast` says exactly when. */
    method CopyLoop(distance0: nat, length: nat) returns (r: CopyResult)
      requires Valid() && 1 <= distance0 <= seekbackLimit
      modifies this, buffer
      ensures Valid() && readingHead == old(readingHead) && !r.BeyondLimit?
      ensures r.Aborted? <==> RunsPast(buffer.Length, old(readingHead + usedSpace), distance0, length, old(EmptySpace()))
      ensures r.Copied? ==> r.count == Min(length, old(EmptySpace())) && usedSpace == old(usedSpace) + r.count
      ensures r.Copied? ==> written == ByteCopy(old(written), distance0, r.count)
    {
      hide Valid, RunsPast, Copying, ByteCopy, Round;
      InBounds();
      ghost var was, end, empty := written, readingHead + usedSpace, EmptySpace();
      CopyingAtFirst(written, buffer.Length, end, distance0, length, empty);
      var distance: nat, remaining: nat := distance0, length;
      while remaining > 0
        invariant Valid() && readingHead == old(readingHead)
        invariant remaining <= length && length - remaining <= empty && usedSpace == old(usedSpace) + (length - remaining)
        invariant Copying(was, written, buffer.Length, end, distance0, length, empty, length - remaining, distance)
      {
        InBounds();
        if EmptySpace() == 0 {
          break;
        }
        ghost var n, now := length - remaining, written;
        CopyingGuides(was, written, buffer.Length, end, distance0, length, empty, n, distance);
        if distance > seekbackLimit {
          return Aborted;
        }
        var lengthWritten := CopyRound(distance, remaining);
        CopyingStep(was, now, written, buffer.Length, end, distance0, length, empty, n, distance, lengthWritten);
        remaining := remaining - lengthWritten;
        if remaining > distance && lengthWritten == distance {
          distance := distance * 2;
        }
      }
      CopyingEnds(was, written, buffer.Length, end, distance0, length, empty, length - remaining, distance);
      r := Copied(length - remaining);
    }

    /** Appends `length` bytes taken from `distance` back, or as many as fit. */
    method CopyFromSeekback(distance: nat, length: nat) returns (r: CopyResult)
      requires Valid()
      modifies this, buffer
      ensures Valid() && readingHead == old(readingHead)
      ensures r.BeyondLimit? <==> distance > old(seekbackLimit)
      ensures r.Aborted? <==> (1 <= distance <= old(seekbackLimit) &&
        RunsPast(buffer.Length, old(readingHead + usedSpace), distance, length, old(EmptySpace())))
      ensures r.BeyondLimit? ==> written == old(written) && usedSpace == old(usedSpace)
      ensures r.Copied? ==> r.count == (if distance == 0 then 0 else Min(length, old(EmptySpace())))
      ensures r.Copied? ==> usedSpace == old(usedSpace) + r.count && written == ByteCopy(old(written), distance, r.count)
    {
      if distance > seekbackLimit {
        return BeyondLimit;
      }
      if distance == 0 {
        // The span at distance zero is empty, so the loop ends before it copies.
        ByteCopyNothing(written, distance);
        return Copied(0);
      }
      r := CopyLoop(distance, length);
    }
  }

  lemma {:induction false} PrefixOfPrefix(s: seq<nat>, len: nat, count: nat)
    requires count <= len <= |s|
    ensures s[..len][..count] == s[..count]
  {
  }

  lemma {:induction false} SlotInside(cap: nat, p: nat)
    requires p < cap || p == cap == 0
    ensures Slot(cap, p) == p
  {
  }

  lemma {:induction false} SlotTwice(cap: nat, head: nat, a: nat, n: nat)
    requires head < cap && a + n <= cap
    ensures Slot(cap, Slot(cap, head + a) + n) == Slot(cap, head + (a + n))
  {
  }

  lemma {:induction false} SlotIsModulo(cap: nat, p: int)
    requires cap > 0 && p + cap >= 0 && p < 2 * cap
    ensures (cap + p) % cap == Slot(cap, p)
  {
    var x := cap + p;
    if p < 0 {
      Bits.DivModUnique(x, cap, 0, x);
    } else if p < cap {
      Bits.DivModUnique(x, cap, 1, p);
    } else {
      Bits.DivModUnique(x, cap, 2, p - cap);
    }
  }

  /** A byte of the source that is still to be copied lies outside the bytes written now. */
  lemma {:induction false} NoClobber(cap: nat, end: nat, from: nat, back: nat, len: nat, done: nat, n: nat, t: nat, start: nat)
    requires 0 < cap && end + done + n < 2 * cap && from + len <= cap && len <= back <= cap
    requires Slot(cap, end) == Slot(cap, from + back) && start == Slot(cap, end + done) && start + n <= cap
    requires done + n <= t < len
    ensures !(start <= from + t < start + n)
  {
  }

  // ---------- the bytes of a source that are still to be copied ----------

  ghost predicate Pending(src: seq<nat>, from: nat, data: seq<nat>, done: nat) {
    from + |data| <= |src| && done <= |data| && src[from + done..from + |data|] == data[done..]
  }

  lemma {:induction false} PendingAtFirst(src: seq<nat>, from: nat, len: nat)
    requires from + len <= |src|
    ensures Pending(src, from, src[from..from + len], 0)
  {
  }

  lemma {:induction false} PendingChunk(src: seq<nat>, from: nat, data: seq<nat>, done: nat, n: nat)
    requires Pending(src, from, data, done) && done + n <= |data|
    ensures src[from + done..from + done + n] == data[done..done + n]
  {
    assert src[from + done..from + |data|][..n] == src[from + done..from + done + n];
    assert data[done..][..n] == data[done..done + n];
  }

  lemma {:induction false} PendingOther(src: seq<nat>, from: nat, data: seq<nat>, done: nat, n: nat)
    requires Pending(src, from, data, done) && done + n <= |data|
    ensures Pending(src, from, data, done + n)
  {
    assert src[from + done..from + |data|][n..] == src[from + done + n..from + |data|];
    assert data[done..][n..] == data[done + n..];
  }

  lemma {:induction false} PendingSelf(b: seq<nat>, b': seq<nat>, from: nat, data: seq<nat>, done: nat, n: nat, end: nat, back: nat, start: nat)
    requires Pending(b, from, data, done) && done + n <= |data| && Replaced(b, b', start, data[done..done + n])
    requires end + done + n < 2 * |b| && |data| <= back <= |b|
    requires Slot(|b|, end) == Slot(|b|, from + back) && start == Slot(|b|, end + done)
    ensures Pending(b', from, data, done + n)
  {
    PendingOther(b, from, data, done, n);
    var left, left' := b[from + done + n..from + |data|], b'[from + done + n..from + |data|];
    forall i | 0 <= i < |left|
      ensures left'[i] == left[i]
    {
      NoClobber(|b|, end, from, back, |data|, done, n, done + n + i, start);
    }
    assert left' == left;
  }

  lemma {:induction false} Appended(w: seq<nat>, data: seq<nat>, done: nat, n: nat)
    requires done + n <= |data|
    ensures w + data[..done] + data[done..done + n] == w + data[..done + n]
  {
    assert data[..done + n] == data[..done] + data[done..done + n];
  }

  // ---------- reading ----------

  lemma {:induction false} DataAt(w: seq<nat>, data: seq<nat>, distance: nat, done: nat, n: nat)
    requires done + distance == |data| <= |w| && data == w[|w| - |data|..] && n <= distance
    ensures w[|w| - distance..][..n] == data[done..done + n]
  {
  }

  ghost predicate Overlaid(was: seq<nat>, now: seq<nat>, to: nat, chunk: seq<nat>) {
    to + |chunk| <= |was| && now == was[..to] + chunk + was[to + |chunk|..]
  }

  lemma {:induction false} OverlaidNothing(was: seq<nat>, to: nat, chunk: seq<nat>)
    requires to <= |was|
    ensures Overlaid(was, was, to, chunk[..0])
  {
  }

  lemma {:induction false} OverlaidNext(was: seq<nat>, now: seq<nat>, to: nat, chunk: seq<nat>, k: nat)
    requires k < |chunk| && to + |chunk| <= |was| && Overlaid(was, now, to, chunk[..k])
    ensures |now| == |was| && Overlaid(was, now[to + k := chunk[k]], to, chunk[..k + 1])
  {
    assert chunk[..k + 1] == chunk[..k] + [chunk[k]];
  }

  /** The first `done` bytes of the destination come from `data`. */
  ghost predicate Filled(bytes: seq<nat>, data: seq<nat>, was: seq<nat>, done: nat) {
    done <= |data| && done <= |was| && bytes == data[..done] + was[done..]
  }

  lemma {:induction false} FilledAtFirst(was: seq<nat>, data: seq<nat>)
    ensures Filled(was, data, was, 0)
  {
  }

  lemma {:induction false} FilledMeans(bytes: seq<nat>, data: seq<nat>, was: seq<nat>, done: nat)
    requires Filled(bytes, data, was, done)
    ensures done <= |data| && done <= |was| && bytes == data[..done] + was[done..]
  {
  }

  lemma {:induction false} FilledFurther(bytes: seq<nat>, bytes': seq<nat>, data: seq<nat>, was: seq<nat>, done: nat, n: nat)
    requires Filled(bytes, data, was, done) && done + n <= |data| && done + n <= |was|
    requires Overlaid(bytes, bytes', done, data[done..done + n])
    ensures Filled(bytes', data, was, done + n)
  {
    assert data[..done + n] == data[..done] + data[done..done + n];
    assert bytes[..done] == data[..done] && bytes[done + n..] == was[done + n..];
  }

  // ---------- the byte-by-byte copy of section 3.2.3 of RFC 1951 ----------

  datatype CopyResult = Copied(count: nat) | BeyondLimit | Aborted

  /** Appends, `n` times, the byte `d` back from the end. */
  ghost function ByteCopy(w: seq<nat>, d: nat, n: nat): (r: seq<nat>)
    requires d <= |w|
    ensures |r| == |w| + (if d == 0 then 0 else n)
  {
    if n == 0 || d == 0 then w else ByteCopy(w, d, n - 1) + [ByteCopy(w, d, n - 1)[|w| + n - 1 - d]]
  }

  lemma {:induction false} ByteCopyNothing(w: seq<nat>, d: nat)
    requires d <= |w|
    ensures ByteCopy(w, d, 0) == w
  {
  }

  lemma {:induction false} ByteCopyLength(w: seq<nat>, d: nat, n: nat)
    requires 1 <= d <= |w|
    ensures |ByteCopy(w, d, n)| == |w| + n
  {
  }

  /** The copied bytes repeat with period `d`. */
  lemma {:induction false} Repeats(w: seq<nat>, d: nat, n: nat, t: nat)
    requires 1 <= d <= |w| <= t < |w| + n
    ensures ByteCopy(w, d, n)[t] == ByteCopy(w, d, n)[t - d]
  {
    if t < |w| + n - 1 {
      Repeats(w, d, n - 1, t);
    }
  }

  lemma {:induction false} RepeatsTimes(w: seq<nat>, d: nat, n: nat, t: nat, times: nat)
    requires 1 <= d <= |w| && t < |w| + n && times * d <= t && |w| <= t - times * d + d
    ensures ByteCopy(w, d, n)[t] == ByteCopy(w, d, n)[t - times * d]
    decreases times
  {
    hide ByteCopy;
    if times > 0 {
      var less := (times - 1) * d;
      assert times * d == less + d;
      RepeatsTimes(w, d, n, t, times - 1);
      Repeats(w, d, n, t - less);
    }
  }

  /** A block from any multiple of the distance that the copy has covered is what the single steps append. */
  lemma {:induction false} ChunkIsByteCopy(w: seq<nat>, d: nat, n: nat, times: nat, c: nat)
    requires 1 <= d <= |w| && times >= 1 && times * d <= n + d && c <= times * d
    ensures var v := ByteCopy(w, d, n); v + v[|v| - times * d..][..c] == ByteCopy(w, d, n + c)
  {
    hide ByteCopy;
    var back := times * d;
    var v := ByteCopy(w, d, n);
    var block := v[|v| - back..];
    if c == 0 {
      assert v + block[..0] == v;
    } else {
      ChunkIsByteCopy(w, d, n, times, c - 1);
      var m: nat := n + c - 1;
      var u := ByteCopy(w, d, m);
      assert block[..c] == block[..c - 1] + [block[c - 1]];
      assert v + block[..c] == u + [block[c - 1]];
      assert u[|v| - back + (c - 1)] == block[c - 1];
      assert back == (times - 1) * d + d;
      RepeatsTimes(w, d, m, |w| + m - d, times - 1);
      ByteCopyStep(w, d, m);
    }
  }

  lemma {:induction false} ByteCopyStep(w: seq<nat>, d: nat, n: nat)
    requires 1 <= d <= |w|
    ensures ByteCopy(w, d, n + 1) == ByteCopy(w, d, n) + [ByteCopy(w, d, n)[|w| + n - d]]
  {
  }

  // ---------- when the doubled distance stays inside ----------

  /** The largest distance that doubling reaches inside the buffer. */
  function Largest(d: nat, cap: nat): (r: nat)
    requires 1 <= d <= cap
    ensures d <= r <= cap < 2 * r
    ensures 2 * d > cap ==> r == d
    decreases cap - d
  {
    if 2 * d > cap then d else Largest(2 * d, cap)
  }

  lemma {:induction false} LargestDoubled(d: nat, cap: nat)
    requires 1 <= d && 2 * d <= cap
    ensures Largest(2 * d, cap) == Largest(d, cap)
  {
  }

  /** How many bytes are copied before the distance is doubled out of the buffer. */
  function Turning(cap: nat, end: int, d: nat): int
    requires 1 <= d <= cap
  {
    var from, top := Slot(cap, end - d), Largest(d, cap);
    2 * top - d + (if from + top > cap then cap - from else 0)
  }

  predicate RunsPast(cap: nat, end: int, d: nat, length: nat, empty: int)
    requires 1 <= d <= cap
  {
    empty > Turning(cap, end, d) && length > Turning(cap, end, d) + Largest(d, cap)
  }

  /** Within the empty space, the copy never fails the check. */
  lemma {:induction false} FitsIsSafe(cap: nat, end: int, d: nat, length: nat, empty: int)
    requires 1 <= d <= cap && empty <= cap && length <= empty && 0 <= end < 2 * cap
    ensures !RunsPast(cap, end, d, length, empty)
  {
  }

  /** How much one round copies. */
  function Round(cap: nat, end: int, distance: nat, remaining: nat, empty: int): int {
    var row := cap - Slot(cap, end - distance);
    var a := if row < distance then row else distance;
    var b := if a < remaining then a else remaining;
    if b < empty then b else empty
  }

  lemma {:induction false} RoundBound(cap: nat, end: int, distance: nat, remaining: nat, empty: int)
    ensures Round(cap, end, distance, remaining, empty) <= distance
    ensures Round(cap, end, distance, remaining, empty) <= remaining
    ensures Round(cap, end, distance, remaining, empty) <= empty
    ensures 0 <= Slot(cap, end - distance) < cap && distance > 0 && remaining > 0 && empty > 0 ==>
      Round(cap, end, distance, remaining, empty) > 0
  {
  }

  /** Where the loop stands after `n` bytes with distance `x`. */
  ghost predicate Plan(cap: nat, end: int, d: nat, length: nat, empty: int, n: nat, x: nat) {
    && 1 <= d <= cap && 0 <= end < 2 * cap && end + empty < 2 * cap && n <= length && n <= empty <= cap
    && var from, top := Slot(cap, end - d), Largest(d, cap);
    || (d <= x <= cap && Largest(x, cap) == top && n == x - d)
    || (d <= x <= cap && Largest(x, cap) == top && from + x > cap && n == x - d + cap - from)
    || (d <= x <= cap && n >= x - d && !RunsPast(cap, end, d, length, empty) && (length - n <= x || n == empty))
    || (x == 2 * top && n == Turning(cap, end, d) && length > n + top)
  }

  lemma {:induction false} PlanAtFirst(cap: nat, end: int, d: nat, length: nat, empty: int)
    requires 1 <= d <= cap && 0 <= end && 0 <= empty <= cap && end + empty < 2 * cap
    ensures Plan(cap, end, d, length, empty, 0, d)
  {
  }

  /** Before a round, the distance is inside the buffer unless the copy is bound to fail. */
  lemma {:induction false} PlanGuides(cap: nat, end: int, d: nat, length: nat, empty: int, n: nat, x: nat)
    requires Plan(cap, end, d, length, empty, n, x) && n < length && n < empty
    ensures x > cap ==> RunsPast(cap, end, d, length, empty)
    ensures x <= cap ==> 1 <= d <= x <= n + d && 0 <= Slot(cap, end + n - x) < cap
  {
  }

  lemma {:induction false} PlanStep(cap: nat, end: int, d: nat, length: nat, empty: int, n: nat, x: nat, c: nat)
    requires Plan(cap, end, d, length, empty, n, x) && n < length && n < empty && x <= cap
    requires c == Round(cap, end + n, x, length - n, empty - n)
    ensures Plan(cap, end, d, length, empty, n + c, if length - (n + c) > x && c == x then 2 * x else x)
  {
    if 2 * x <= cap {
      LargestDoubled(x, cap);
    }
  }

  lemma {:induction false} PlanEnds(cap: nat, end: int, d: nat, length: nat, empty: int, n: nat, x: nat)
    requires Plan(cap, end, d, length, empty, n, x) && (n == length || n == empty)
    ensures n == if length < empty then length else empty
    ensures !RunsPast(cap, end, d, length, empty)
  {
  }

  /** The distance is a multiple of the first one. */
  ghost predicate MultipleOf(x: nat, d: nat) {
    exists times: nat :: times >= 1 && x == times * d
  }

  /** What the loop keeps: its place in the plan and the bytes copied so far. */
  ghost predicate Copying(was: seq<nat>, w: seq<nat>, cap: nat, end: int, d: nat, length: nat, empty: int, n: nat, x: nat) {
    && Plan(cap, end, d, length, empty, n, x) && MultipleOf(x, d)
    && d <= |was| && w == ByteCopy(was, d, n)
  }

  lemma {:induction false} CopyingAtFirst(was: seq<nat>, cap: nat, end: int, d: nat, length: nat, empty: int)
    requires 1 <= d <= cap && d <= |was| && 0 <= end && 0 <= empty <= cap && end + empty < 2 * cap
    ensures Copying(was, was, cap, end, d, length, empty, 0, d)
  {
    hide Plan;
    PlanAtFirst(cap, end, d, length, empty);
    assert d == 1 * d;
  }

  lemma {:induction false} CopyingGuides(was: seq<nat>, w: seq<nat>, cap: nat, end: int, d: nat, length: nat, empty: int, n: nat, x: nat)
    requires Copying(was, w, cap, end, d, length, empty, n, x) && n < length && n < empty
    ensures x > Min(|w|, cap) <==> x > cap
    ensures x > cap ==> RunsPast(cap, end, d, length, empty)
    ensures x >= 1 && 1 <= d <= cap
  {
    PlanGuides(cap, end, d, length, empty, n, x);
    ByteCopyLength(was, d, n);
  }

  lemma {:induction false} CopyingStep(was: seq<nat>, w: seq<nat>, w': seq<nat>, cap: nat, end: int, d: nat, length: nat, empty: int,
      n: nat, x: nat, c: nat)
    requires Copying(was, w, cap, end, d, length, empty, n, x) && n < length && n < empty && x <= cap && x <= |w|
    requires c == Round(cap, end + n, x, length - n, empty - n) && w' == w + w[|w| - x..][..c]
    ensures 0 < c <= length - n && c <= empty - n
    ensures Copying(was, w', cap, end, d, length, empty, n + c, if length - (n + c) > x && c == x then 2 * x else x)
  {
    hide Plan, Round, RunsPast, Slot, ByteCopy, MultipleOf;
    PlanGuides(cap, end, d, length, empty, n, x);
    RoundBound(cap, end + n, x, length - n, empty - n);
    ChunkFromMultiple(was, d, n, x, c);
    PlanStep(cap, end, d, length, empty, n, x, c);
    MultipleDoubled(x, d);
  }

  lemma {:induction false} MultipleDoubled(x: nat, d: nat)
    requires MultipleOf(x, d)
    ensures MultipleOf(2 * x, d)
  {
    var times: nat :| times >= 1 && x == times * d;
    assert 2 * x == (2 * times) * d;
  }

  lemma {:induction false} ChunkFromMultiple(w: seq<nat>, d: nat, n: nat, x: nat, c: nat)
    requires 1 <= d <= |w| && MultipleOf(x, d) && x <= n + d && c <= x
    ensures var v := ByteCopy(w, d, n); v + v[|v| - x..][..c] == ByteCopy(w, d, n + c)
  {
    var times: nat :| times >= 1 && x == times * d;
    ChunkIsByteCopy(w, d, n, times, c);
  }

  lemma {:induction false} CopyingEnds(was: seq<nat>, w: seq<nat>, cap: nat, end: int, d: nat, length: nat, empty: int, n: nat, x: nat)
    requires Copying(was, w, cap, end, d, length, empty, n, x) && (n == length || n == empty)
    ensures n == (if length < empty then length else empty) && 1 <= d <= cap && d <= |was| && w == ByteCopy(was, d, n)
    ensures !RunsPast(cap, end, d, length, empty)
  {
    PlanEnds(cap, end, d, length, empty, n, x);
  }

  // ---------- every run ----------

  datatype Op = WriteOp(bytes: seq<nat>) | ReadOp(size: nat) | DiscardOp(size: nat) | CopyOp(distance: nat, length: nat) | ClearOp

  /** The reference: all bytes written, how many of them wait, where the buffer reads, and all bytes read. */
  datatype Model = Model(written: seq<nat>, used: nat, head: nat, output: seq<nat>)

  ghost predicate ModelOk(cap: nat, m: Model) {
    m.used <= |m.written| && m.used <= cap && m.head < cap
  }

  ghost function Apply(cap: nat, m: Model, op: Op): (r: Model)
    requires ModelOk(cap, m)
    ensures ModelOk(cap, r)
  {
    match op
    case WriteOp(bytes) =>
      var n := Min(|bytes|, cap - m.used);
      m.(written := m.written + bytes[..n], used := m.used + n)
    case ReadOp(size) =>
      var n := Min(size, m.used);
      Model(m.written, m.used - n, Slot(cap, m.head + n), m.output + m.written[|m.written| - m.used..][..n])
    case DiscardOp(size) =>
      if size <= m.used then m.(used := m.used - size, head := Slot(cap, m.head + size)) else m
    case CopyOp(distance, length) =>
      if distance == 0 || distance > Min(|m.written|, cap) || length == 0 || m.used == cap then m
      else
        var n := Min(length, cap - m.used);
        m.(written := ByteCopy(m.written, distance, n), used := m.used + n)
    case ClearOp => Model([], 0, 0, m.output)
  }

  ghost function ApplyAll(cap: nat, m: Model, ops: seq<Op>): (r: Model)
    requires ModelOk(cap, m)
    ensures ModelOk(cap, r)
  {
    if ops == [] then m else Apply(cap, ApplyAll(cap, m, ops[..|ops| - 1]), ops[|ops| - 1])
  }

  /** The copies whose doubled distance runs past the limit. */
  ghost predicate Aborts(cap: nat, m: Model, op: Op)
    requires ModelOk(cap, m)
  {
    op.CopyOp? && 1 <= op.distance <= Min(|m.written|, cap) &&
    RunsPast(cap, m.head + m.used, op.distance, op.length, cap - m.used)
  }

  ghost predicate NeverAborts(cap: nat, m: Model, ops: seq<Op>)
    requires ModelOk(cap, m)
  {
    forall i :: 0 <= i < |ops| ==> !Aborts(cap, ApplyAll(cap, m, ops[..i]), ops[i])
  }

  /** No copy asks for more than fits. */
  ghost predicate CopiesFit(cap: nat, m: Model, ops: seq<Op>)
    requires ModelOk(cap, m)
  {
    forall i :: 0 <= i < |ops| && ops[i].CopyOp? ==> ops[i].length <= cap - ApplyAll(cap, m, ops[..i]).used
  }

  lemma {:induction false} FittingNeverAborts(cap: nat, m: Model, ops: seq<Op>)
    requires ModelOk(cap, m) && CopiesFit(cap, m, ops)
    ensures NeverAborts(cap, m, ops)
  {
    forall i | 0 <= i < |ops|
      ensures !Aborts(cap, ApplyAll(cap, m, ops[..i]), ops[i])
    {
      var now, op := ApplyAll(cap, m, ops[..i]), ops[i];
      if op.CopyOp? && 1 <= op.distance <= Min(|now.written|, cap) {
        FitsIsSafe(cap, now.head + now.used, op.distance, op.length, cap - now.used);
      }
    }
  }

  /** One operation on the buffer does what it does on the reference. */
  method Perform(c: CircularBuffer, op: Op, output: seq<nat>) returns (ok: bool, output': seq<nat>)
    requires c.Valid() && c.buffer.Length > 0
    modifies c, c.buffer
    ensures c.Valid()
    ensures var was := Model(old(c.written), old(c.usedSpace), old(c.readingHead), output);
            && (ok <==> !Aborts(c.buffer.Length, was, op))
            && (ok ==> Model(c.written, c.usedSpace, c.readingHead, output') == Apply(c.buffer.Length, was, op))
  {
    hide Window, ByteCopy, RunsPast, Slot;
    ok, output' := true, output;
    match op
    case WriteOp(bytes) =>
      PerformWrite(c, bytes);
    case ReadOp(size) =>
      var bytes := PerformRead(c, size);
      output' := output + bytes;
    case DiscardOp(size) =>
      var done := c.Discard(size);
    case CopyOp(distance, length) =>
      ok := PerformCopy(c, distance, length);
    case ClearOp =>
      c.Clear();
  }

  method PerformWrite(c: CircularBuffer, bytes: seq<nat>)
    requires c.Valid()
    modifies c, c.buffer
    ensures c.Valid() && c.readingHead == old(c.readingHead)
    ensures var n := Min(|bytes|, old(c.EmptySpace())); c.written == old(c.written) + bytes[..n] && c.usedSpace == old(c.usedSpace) + n
  {
    hide Window;
    var source := new nat[|bytes|](i requires 0 <= i < |bytes| => bytes[i]);
    assert source[0..|bytes|] == bytes;
    var count := c.Write(source, 0, |bytes|, 0);
  }

  method PerformRead(c: CircularBuffer, size: nat) returns (bytes: seq<nat>)
    requires c.Valid()
    modifies c
    ensures c.Valid() && c.written == old(c.written)
    ensures var n := Min(size, old(c.usedSpace));
            && bytes == old(c.Contents())[..n] && c.usedSpace == old(c.usedSpace) - n
            && c.readingHead == Slot(c.buffer.Length, old(c.readingHead) + n)
  {
    hide Window;
    var dest := new nat[size];
    var count := c.Read(dest);
    bytes := dest[..count];
    assert bytes == dest[..][..count];
  }

  method PerformCopy(c: CircularBuffer, distance: nat, length: nat) returns (ok: bool)
    requires c.Valid() && c.buffer.Length > 0
    modifies c, c.buffer
    ensures c.Valid() && c.readingHead == old(c.readingHead)
    ensures !ok <==> (1 <= distance <= old(c.seekbackLimit) &&
      RunsPast(c.buffer.Length, old(c.readingHead + c.usedSpace), distance, length, old(c.EmptySpace())))
    ensures var n := if distance == 0 || distance > old(c.seekbackLimit) then 0 else Min(length, old(c.EmptySpace()));
            ok ==> c.usedSpace == old(c.usedSpace) + n && c.written == if n == 0 then old(c.written) else ByteCopy(old(c.written), distance, n)
  {
    hide Window, ByteCopy, RunsPast;
    if distance <= c.seekbackLimit {
      ByteCopyNothing(c.written, distance);
    }
    var r := c.CopyFromSeekback(distance, length);
    ok := !r.Aborted?;
  }

  /** From an empty buffer, every run refines the reference; it is cut short exactly by a copy that runs past the limit. */
  method Replay(size: nat, ops: seq<Op>) returns (ok: bool, c: CircularBuffer, output: seq<nat>)
    requires size > 0
    ensures c.Valid() && c.buffer.Length == size
    ensures ok <==> NeverAborts(size, Model([], 0, 0, []), ops)
    ensures ok ==> Model(c.written, c.usedSpace, c.readingHead, output) == ApplyAll(size, Model([], 0, 0, []), ops)
  {
    hide Window, Apply, Aborts;
    c := new CircularBuffer.CreateEmpty(size);
    ok, output := true, [];
    ghost var start := Model([], 0, 0, []);
    assert ops[..0] == [];
    for i := 0 to |ops|
      invariant c.Valid() && c.buffer.Length == size && fresh(c) && fresh(c.buffer)
      invariant Model(c.written, c.usedSpace, c.readingHead, output) == ApplyAll(size, start, ops[..i])
      invariant forall j :: 0 <= j < i ==> !Aborts(size, ApplyAll(size, start, ops[..j]), ops[j])
    {
      ApplyNext(size, start, ops, i);
      var done;
      done, output := Perform(c, ops[i], output);
      if !done {
        return false, c, output;
      }
    }
    assert ops[..|ops|] == ops;
  }

  lemma {:induction false} ApplyNext(cap: nat, m: Model, ops: seq<Op>, i: nat)
    requires ModelOk(cap, m) && i < |ops|
    ensures ApplyAll(cap, m, ops[..i + 1]) == Apply(cap, ApplyAll(cap, m, ops[..i]), ops[i])
  {
    assert ops[..i + 1][..i] == ops[..i];
  }

  lemma {:induction false} SixOfTen()
    ensures Slot(10, 6) == 6 && RunsPast(10, 6, 6, 100, 10)
  {
  }

  /** A copy of more than fits can fail the check: with six bytes written and read, every one of ten bytes is free. */
  method MoreThanFitsCanAbort(bytes: seq<nat>) returns (r: CopyResult)
    requires |bytes| == 6
    ensures r.Aborted?
  {
    SixOfTen();
    hide CircularBuffer.Valid, ByteCopy, RunsPast, Slot;
    var c := new CircularBuffer.CreateEmpty(10);
    PerformWrite(c, bytes);
    c.InBounds();
    var read := PerformRead(c, 6);
    c.InBounds();
    r := c.CopyFromSeekback(6, 100);
  }
}
