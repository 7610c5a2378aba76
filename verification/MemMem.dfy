/** `AK/MemMem.h`: searching bytes. */
module MemMem {
  import opened Common
  import opened Bits

  /** The needle stands at offset `s`. */
  ghost predicate Occurs(text: seq<nat>, needle: seq<nat>, s: nat) {
    s + |needle| <= |text| && text[s..s + |needle|] == needle
  }

  /** What a search promises: the leftmost offset, or nothing when there is none. */
  ghost predicate Leftmost(text: seq<nat>, needle: seq<nat>, r: Option<nat>) {
    match r
    case None => forall s: nat :: !Occurs(text, needle, s)
    case Some(k) => Occurs(text, needle, k) && forall s: nat :: s < k ==> !Occurs(text, needle, s)
  }

  // ---------- Knuth, Morris and Pratt: borders ----------

  /** The first `k` bytes of the needle end its first `q` bytes. */
  ghost predicate Border(p: seq<nat>, q: nat, k: nat) {
    k < q <= |p| && p[..k] == p[q - k..q]
  }

  /** The entry of the failure table: the longest border that a different byte follows. */
  ghost predicate IsEntry(p: seq<nat>, q: nat, k: int) {
    && -1 <= k < q < |p|
    && (k >= 0 ==> Border(p, q, k) && p[k] != p[q])
    && forall j: nat :: k < j && Border(p, q, j) ==> p[j] == p[q]
  }

  /** A border of a border is a border, and every shorter border is one. */
  lemma {:induction false} BorderNests(p: seq<nat>, q: nat, k: nat, j: nat)
    requires Border(p, q, k) && j < k
    ensures Border(p, q, j) <==> Border(p, k, j)
  {
    assert p[..k][k - j..] == p[k - j..k];
    assert p[q - k..q][k - j..] == p[q - j..q];
  }

  lemma {:induction false} BorderGrows(p: seq<nat>, q: nat, k: nat)
    requires k < q < |p|
    ensures Border(p, q + 1, k + 1) <==> Border(p, q, k) && p[k] == p[q]
  {
    assert p[..k + 1] == p[..k] + [p[k]];
    assert p[q - k..q + 1] == p[q - k..q] + [p[q]];
  }

  /** The longest border. */
  ghost predicate Longest(p: seq<nat>, q: nat, k: nat) {
    Border(p, q, k) && forall j: nat :: j > k ==> !Border(p, q, j)
  }

  /** The next byte repeats: the entry is the one of the border. */
  lemma {:induction false} EntryCopied(p: seq<nat>, q: nat, c: nat, k: int)
    requires Longest(p, q, c) && q < |p| && p[q] == p[c] && IsEntry(p, c, k)
    ensures IsEntry(p, q, k)
  {
    LongestRange(p, q, c);
    hide Border;
    if k >= 0 {
      BorderNests(p, q, c, k);
    }
    forall j: nat | k < j && Border(p, q, j)
      ensures p[j] == p[q]
    {
      if j < c {
        BorderNests(p, q, c, j);
      }
    }
  }

  lemma {:induction false} LongestRange(p: seq<nat>, q: nat, c: nat)
    requires Border(p, q, c)
    ensures c < q <= |p|
  {
  }

  lemma {:induction false} LongestGrows(p: seq<nat>, q: nat, c: nat)
    requires Longest(p, q, c) && q < |p| && p[q] == p[c]
    ensures Longest(p, q + 1, c + 1)
  {
    CandidateFound(p, q, c);
  }

  /** The search for the border that the next byte continues. */
  ghost predicate Candidate(p: seq<nat>, q: nat, c: int) {
    && -1 <= c < q < |p|
    && (c >= 0 ==> Border(p, q, c))
    && forall j: nat :: c < j && Border(p, q, j) ==> p[j] != p[q]
  }

  lemma {:induction false} CandidateFalls(p: seq<nat>, q: nat, c: nat, k: int)
    requires Candidate(p, q, c) && p[c] != p[q] && IsEntry(p, c, k)
    ensures Candidate(p, q, k)
  {
    if k >= 0 {
      BorderNests(p, q, c, k);
    }
    forall j: nat | k < j && Border(p, q, j)
      ensures p[j] != p[q]
    {
      if j < c {
        BorderNests(p, q, c, j);
      }
    }
  }

  lemma {:induction false} CandidateFound(p: seq<nat>, q: nat, c: int)
    requires Candidate(p, q, c) && (c >= 0 ==> p[c] == p[q])
    ensures Longest(p, q + 1, c + 1)
  {
    if c >= 0 {
      BorderGrows(p, q, c);
    }
    var q' := q + 1;
    forall j: nat | j > c + 1
      ensures !Border(p, q', j)
    {
      if j <= q {
        BorderGrows(p, q, j - 1);
      }
    }
  }

  ghost predicate TableUpTo(p: seq<nat>, table: seq<int>, n: nat) {
    n <= |table| <= |p| && forall q :: 0 <= q < n ==> IsEntry(p, q, table[q])
  }

  method PrepareKmpPartialTable(needle: seq<nat>) returns (table: array<int>)
    requires needle != []
    ensures table.Length == |needle| && TableUpTo(needle, table[..], |needle|) && fresh(table)
  {
    hide Border, IsEntry, Longest, Candidate;
    table := new int[|needle|];
    var position: nat, candidate: int := 1, 0;
    table[0] := -1;
    FirstEntries(needle);
    while position < |needle|
      invariant 1 <= position <= |needle| && 0 <= candidate < position
      invariant TableUpTo(needle, table[..], position)
      invariant Longest(needle, position, candidate)
    {
      if needle[position] == needle[candidate] {
        EntryCopied(needle, position, candidate, table[candidate]);
        LongestGrows(needle, position, candidate);
        table[position] := table[candidate];
      } else {
        EntryIsBorder(needle, position, candidate);
        table[position] := candidate;
        candidate := FallBack(needle, table, position, candidate);
      }
      position := position + 1;
      candidate := candidate + 1;
    }
  }

  lemma {:induction false} FirstEntries(p: seq<nat>)
    requires p != []
    ensures IsEntry(p, 0, -1) && Longest(p, 1, 0)
  {
  }

  lemma {:induction false} EntryIsBorder(p: seq<nat>, q: nat, c: nat)
    requires Longest(p, q, c) && q < |p| && p[q] != p[c]
    ensures IsEntry(p, q, c) && Candidate(p, q, c)
  {
  }

  /** The inner loop, which runs at least once. */
  method FallBack(needle: seq<nat>, table: array<int>, position: nat, candidate0: nat) returns (candidate: int)
    requires position < |needle| == table.Length && candidate0 < position
    requires TableUpTo(needle, table[..], position)
    requires Candidate(needle, position, candidate0) && needle[position] != needle[candidate0]
    ensures -1 <= candidate < position && Longest(needle, position + 1, candidate + 1)
  {
    hide Border, IsEntry, Longest, Candidate;
    candidate := candidate0;
    var again := true;
    while again
      invariant -1 <= candidate < position && Candidate(needle, position, candidate)
      invariant again <==> candidate >= 0 && needle[candidate] != needle[position]
      decreases candidate
    {
      EntryRange(needle, candidate, table[..][candidate]);
      CandidateFalls(needle, position, candidate, table[..][candidate]);
      candidate := table[candidate];
      again := candidate >= 0 && needle[candidate] != needle[position];
    }
    CandidateFound(needle, position, candidate);
  }

  lemma {:induction false} EntryRange(p: seq<nat>, q: nat, k: int)
    requires IsEntry(p, q, k)
    ensures -1 <= k < q < |p|
  {
  }

  // ---------- the search ----------

  /** The first `q` bytes of the needle end at `i`, and the needle occurs nowhere before them. */
  ghost predicate Matched(text: seq<nat>, p: seq<nat>, i: nat, q: int) {
    && 0 <= q <= i <= |text| && q <= |p| && text[i - q..i] == p[..q]
    && forall s: nat :: s < i - q ==> !Occurs(text, p, s)
  }

  lemma {:induction false} MatchedFurther(text: seq<nat>, p: seq<nat>, i: nat, q: nat)
    requires Matched(text, p, i, q) && q < |p| && i < |text| && p[q] == text[i]
    ensures Matched(text, p, i + 1, q + 1)
  {
    assert text[i - q..i + 1] == text[i - q..i] + [text[i]];
    assert p[..q + 1] == p[..q] + [p[q]];
  }

  /** An occurrence that begins inside the match is a border of it, and its next byte is the text's. */
  lemma {:induction false} OccurrenceIsBorder(text: seq<nat>, p: seq<nat>, i: nat, q: nat, s: nat)
    requires Matched(text, p, i, q) && q < |p| && i < |text| && Occurs(text, p, s) && i - q < s <= i
    ensures Border(p, q, i - s) && p[i - s] == text[i]
  {
    var k := i - s;
    assert text[s..s + |p|][..k] == text[s..i];
    assert text[i - q..i][q - k..] == text[s..i];
    assert p[..q][q - k..] == p[q - k..q];
    assert text[s..s + |p|][k] == text[i];
  }

  lemma {:induction false} MismatchFalls(text: seq<nat>, p: seq<nat>, i: nat, q: nat, k: int)
    requires Matched(text, p, i, q) && i < |text| && IsEntry(p, q, k) && p[q] != text[i]
    ensures k >= 0 ==> Matched(text, p, i, k)
    ensures k < 0 ==> Matched(text, p, i + 1, 0)
  {
    forall s: nat | s < i - k && s <= i
      ensures !Occurs(text, p, s)
    {
      if Occurs(text, p, s) {
        if s > i - q {
          OccurrenceIsBorder(text, p, i, q, s);
        }
      }
    }
    if k >= 0 {
      assert text[i - q..i][q - k..] == text[i - k..i];
      assert p[..q][q - k..] == p[q - k..q];
    }
  }

  lemma {:induction false} MatchedAll(text: seq<nat>, p: seq<nat>, i: nat)
    requires Matched(text, p, i, |p|)
    ensures Leftmost(text, p, Some(i - |p|))
  {
  }

  lemma {:induction false} TextExhausted(text: seq<nat>, p: seq<nat>, q: nat)
    requires Matched(text, p, |text|, q) && q < |p|
    ensures Leftmost(text, p, None)
  {
  }

  /** The bytes of all chunks in a row. */
  ghost function Joined(chunks: seq<seq<nat>>): seq<nat> {
    if chunks == [] then [] else Joined(chunks[..|chunks| - 1]) + chunks[|chunks| - 1]
  }

  lemma {:induction false} JoinedNext(chunks: seq<seq<nat>>, i: nat)
    requires i < |chunks|
    ensures Joined(chunks[..i + 1]) == Joined(chunks[..i]) + chunks[i]
  {
    assert chunks[..i + 1][..i] == chunks[..i];
  }

  lemma {:induction false} JoinedPrefix(chunks: seq<seq<nat>>, i: nat)
    requires i <= |chunks|
    ensures Joined(chunks[..i]) <= Joined(chunks)
    decreases |chunks| - i
  {
    if i == |chunks| {
      assert chunks[..i] == chunks;
    } else {
      JoinedNext(chunks, i);
      JoinedPrefix(chunks, i + 1);
    }
  }

  /** Where byte `cur` of chunk `i` stands in the whole. */
  lemma {:induction false} ByteOfChunk(chunks: seq<seq<nat>>, i: nat, cur: nat)
    requires i < |chunks| && cur < |chunks[i]|
    ensures |Joined(chunks[..i])| + cur < |Joined(chunks)|
    ensures Joined(chunks)[|Joined(chunks[..i])| + cur] == chunks[i][cur]
  {
    JoinedNext(chunks, i);
    JoinedPrefix(chunks, i + 1);
  }

  /** `memmem` over any chunks: the leftmost occurrence in their concatenation. */
  method SearchChunks(haystack: seq<seq<nat>>, needle: seq<nat>) returns (r: Option<nat>)
    requires needle != []
    ensures Leftmost(Joined(haystack), needle, r)
  {
    hide Joined, Matched, IsEntry, Leftmost, TableUpTo;
    ghost var text := Joined(haystack);
    var table := PrepareKmpPartialTable(needle);
    var total: nat, current: nat, needleIndex: int, it: nat := 0, 0, 0, 0;
    StartOfText(haystack, needle);
    while it != |haystack|
      invariant it <= |haystack| && 0 <= needleIndex < |needle|
      invariant total == |Joined(haystack[..it])| + current
      invariant it < |haystack| ==> current <= |haystack[it]|
      invariant it == |haystack| ==> current == 0
      invariant Matched(text, needle, total, needleIndex)
      invariant TableUpTo(needle, table[..], |needle|)
      decreases |haystack| - it, |text| - total, needleIndex
    {
      var chunk := haystack[it];
      if current >= |chunk| {
        JoinedNext(haystack, it);
        current := 0;
        it := it + 1;
        continue;
      }
      ByteOfChunk(haystack, it, current);
      if needle[needleIndex] == chunk[current] {
        MatchedFurther(text, needle, total, needleIndex);
        needleIndex := needleIndex + 1;
        current := current + 1;
        total := total + 1;
        if needleIndex == |needle| {
          MatchedBounds(text, needle, total, needleIndex);
          MatchedAll(text, needle, total);
          return Some(total - needleIndex);
        }
        continue;
      }
      TableAt(needle, table[..], needleIndex);
      EntryRange(needle, needleIndex, table[..][needleIndex]);
      MismatchFalls(text, needle, total, needleIndex, table[..][needleIndex]);
      needleIndex := table[needleIndex];
      if needleIndex < 0 {
        needleIndex := needleIndex + 1;
        current := current + 1;
        total := total + 1;
      }
    }
    assert haystack[..|haystack|] == haystack;
    TextExhausted(text, needle, needleIndex);
    return None;
  }

  lemma {:induction false} TableAt(p: seq<nat>, table: seq<int>, q: nat)
    requires TableUpTo(p, table, |p|) && q < |p| == |table|
    ensures IsEntry(p, q, table[q])
  {
  }

  lemma {:induction false} MatchedBounds(text: seq<nat>, p: seq<nat>, i: nat, q: int)
    requires Matched(text, p, i, q)
    ensures 0 <= q <= i
  {
  }

  lemma {:induction false} StartOfText(haystack: seq<seq<nat>>, needle: seq<nat>)
    ensures |Joined(haystack[..0])| == 0
    ensures Matched(Joined(haystack), needle, 0, 0)
  {
  }

  // ---------- bit-parallel search ----------

  const WORD: nat := 32

  ghost predicate Bytes(s: seq<nat>) {
    forall i :: 0 <= i < |s| ==> s[i] < 256
  }

  /** The first `k` bytes of the needle end at `i`. */
  ghost predicate Ends(text: seq<nat>, p: seq<nat>, i: nat, k: nat) {
    k <= i <= |text| && k <= |p| && text[i - k..i] == p[..k]
  }

  /** A zero in bit `k` of the mask of a byte: the needle has that byte at place `k`. */
  ghost predicate IsMask(mask: nat, p: seq<nat>, n: nat, byte: nat) {
    && mask < Pow2(WORD)
    && forall k: nat :: k < WORD ==> (!Bit(mask, k) <==> k < n && k < |p| && p[k] == byte)
  }

  /** A zero in bit `k` of the lookup word: the first `k` bytes of the needle end here. */
  ghost predicate IsLookup(lookup: nat, text: seq<nat>, p: seq<nat>, i: nat) {
    && lookup < Pow2(WORD)
    && forall k: nat :: k <= |p| ==> (!Bit(lookup, k) <==> Ends(text, p, i, k))
  }

  lemma {:induction false} AllOnes(p: seq<nat>, byte: nat)
    ensures Pow2(WORD) == 0x1_0000_0000
    ensures IsMask(0xffff_ffff, p, 0, byte)
  {
    WordValue();
    forall k: nat | k < WORD
      ensures Bit(0xffff_ffff, k)
    {
      BitNot(WORD, 0, k);
      BitOfZero(k);
    }
  }

  lemma {:induction false} WordValue()
    ensures Pow2(WORD) == 0x1_0000_0000
  {
    assert Pow2(2) == 4;
    Pow2Add(2, 2);
    Pow2Add(4, 4);
    Pow2Add(8, 8);
    Pow2Add(16, 16);
  }

  /** The lookup word before the first byte: only the empty prefix has ended. */
  lemma {:induction false} FirstLookup(text: seq<nat>, p: seq<nat>)
    requires |p| < WORD
    ensures IsLookup(0xffff_fffe, text, p, 0)
  {
    WordValue();
    forall k: nat | k <= |p|
      ensures !Bit(0xffff_fffe, k) <==> Ends(text, p, 0, k)
    {
      BitNot(WORD, 1, k);
      BitPow2(0, k);
    }
  }

  /** `mask &= ~(1 << i)`. */
  lemma {:induction false} MaskCleared(mask: nat, p: seq<nat>, i: nat)
    requires i < |p| && i < WORD && IsMask(mask, p, i, p[i])
    ensures Pow2(i) < Pow2(WORD)
    ensures IsMask(And(mask, Not(WORD, Pow2(i))), p, i + 1, p[i])
  {
    hide Bit, And, Pow2;
    Pow2Monotone(i + 1, WORD);
    Pow2Double(i);
    var cleared := And(mask, Not(WORD, Pow2(i)));
    forall k: nat | k < WORD
      ensures !Bit(cleared, k) <==> k < i + 1 && k < |p| && p[k] == p[i]
    {
      BitAnd(mask, Not(WORD, Pow2(i)), k);
      BitNot(WORD, Pow2(i), k);
      BitPow2(i, k);
    }
  }

  lemma {:induction false} Pow2Double(k: nat)
    ensures Pow2(k + 1) == 2 * Pow2(k)
  {
  }

  /** The mask of another byte does not change. */
  lemma {:induction false} MaskKept(mask: nat, p: seq<nat>, i: nat, byte: nat)
    requires i < |p| && IsMask(mask, p, i, byte) && byte != p[i]
    ensures IsMask(mask, p, i + 1, byte)
  {
    hide Bit;
  }

  /** `lookup |= mask; lookup <<= 1`. */
  lemma {:induction false} LookupStep(lookup: nat, mask: nat, text: seq<nat>, p: seq<nat>, i: nat)
    requires |p| < WORD && i < |text| && IsLookup(lookup, text, p, i) && IsMask(mask, p, |p|, text[i])
    ensures IsLookup((2 * Or(lookup, mask)) % Pow2(WORD), text, p, i + 1)
  {
    hide Bit, Or, Pow2;
    var joined := Or(lookup, mask);
    var next := (2 * joined) % Pow2(WORD);
    var i' := i + 1;
    forall k: nat | k <= |p|
      ensures !Bit(next, k) <==> Ends(text, p, i', k)
    {
      BitMod(2 * joined, WORD, k);
      BitDouble(joined, k);
      if k >= 1 {
        BitOr(lookup, mask, k - 1);
        EndsFurther(text, p, i, k - 1);
      }
    }
  }

  lemma {:induction false} EndsFurther(text: seq<nat>, p: seq<nat>, i: nat, k: nat)
    requires i < |text| && k < |p|
    ensures Ends(text, p, i + 1, k + 1) <==> Ends(text, p, i, k) && p[k] == text[i]
  {
    if k <= i {
      assert text[i - k..i + 1] == text[i - k..i] + [text[i]];
      assert p[..k + 1] == p[..k] + [p[k]];
    }
  }

  method NeedleMasks(needle: seq<nat>) returns (masks: array<nat>)
    requires |needle| < WORD && Bytes(needle)
    ensures fresh(masks) && masks.Length == 256
    ensures forall c :: 0 <= c < 256 ==> IsMask(masks[c], needle, |needle|, c)
  {
    hide IsMask, And, Not, Pow2;
    masks := new nat[256];
    for i := 0 to 256
      invariant forall c :: 0 <= c < i ==> IsMask(masks[c], needle, 0, c)
    {
      AllOnes(needle, i);
      masks[i] := 0xffff_ffff;
    }
    for i := 0 to |needle|
      invariant forall c :: 0 <= c < 256 ==> IsMask(masks[c], needle, i, c)
    {
      ghost var was, i' := masks[..], i + 1;
      MaskCleared(masks[needle[i]], needle, i);
      masks[needle[i]] := And(masks[needle[i]], Not(WORD, Pow2(i)));
      forall c | 0 <= c < 256
        ensures IsMask(masks[c], needle, i', c)
      {
        if c != needle[i] {
          MaskKept(was[c], needle, i, c);
        }
      }
    }
  }

  /** For a needle of 1 to 31 bytes this is leftmost search. For the empty needle, which the caller keeps away,
      it stops at offset one, after the first byte. */
  method BitapBitwise(haystack: seq<nat>, needle: seq<nat>) returns (r: Option<nat>)
    requires |needle| < WORD && Bytes(needle) && Bytes(haystack)
    ensures needle != [] ==> Leftmost(haystack, needle, r)
    ensures needle == [] ==> r == if haystack == [] then None else Some(1)
  {
    hide Leftmost, Ends, IsMask, IsLookup, Or, And, Pow2;
    var lookup: nat := 0xffff_fffe;
    var masks := NeedleMasks(needle);
    FirstLookup(haystack, needle);
    NoEndYet(haystack, needle);
    for i := 0 to |haystack|
      invariant IsLookup(lookup, haystack, needle, i)
      invariant needle == [] ==> i == 0
      invariant needle != [] ==> NoneEnds(haystack, needle, i)
      invariant forall c :: 0 <= c < 256 ==> IsMask(masks[c], needle, |needle|, c)
    {
      LookupStep(lookup, masks[haystack[i]], haystack, needle, i);
      lookup := Or(lookup, masks[haystack[i]]);
      lookup := (2 * lookup) % Pow2(WORD);
      AndPow2(lookup, |needle|);
      LookupDecides(lookup, haystack, needle, i + 1);
      if 0 == And(lookup, Pow2(|needle|)) {
        EndIsLeftmost(haystack, needle, i);
        return Some(i - |needle| + 1);
      }
      NoEndSoFar(haystack, needle, i);
    }
    NoEndAtAll(haystack, needle);
    return None;
  }

  ghost predicate NoneEnds(text: seq<nat>, p: seq<nat>, i: nat) {
    forall e: nat :: e <= i ==> !Ends(text, p, e, |p|)
  }

  lemma {:induction false} LookupDecides(lookup: nat, text: seq<nat>, p: seq<nat>, i: nat)
    requires IsLookup(lookup, text, p, i)
    ensures !Bit(lookup, |p|) <==> Ends(text, p, i, |p|)
  {
  }

  lemma {:induction false} NoEndYet(text: seq<nat>, p: seq<nat>)
    ensures p != [] ==> NoneEnds(text, p, 0)
  {
  }

  lemma {:induction false} NoEndSoFar(text: seq<nat>, p: seq<nat>, i: nat)
    requires i < |text| && !Ends(text, p, i + 1, |p|) && (p != [] ==> NoneEnds(text, p, i))
    ensures p != [] && NoneEnds(text, p, i + 1)
  {
  }

  lemma {:induction false} OccursIsEnds(text: seq<nat>, p: seq<nat>, s: nat)
    ensures Occurs(text, p, s) <==> Ends(text, p, s + |p|, |p|)
  {
    assert p[..|p|] == p;
  }

  lemma {:induction false} EndIsLeftmost(text: seq<nat>, p: seq<nat>, i: nat)
    requires Ends(text, p, i + 1, |p|) && (p != [] ==> NoneEnds(text, p, i)) && (p == [] ==> i == 0)
    ensures i - |p| + 1 >= 0
    ensures p != [] ==> Leftmost(text, p, Some(i - |p| + 1))
  {
    forall s: nat
      ensures Occurs(text, p, s) <==> Ends(text, p, s + |p|, |p|)
    {
      OccursIsEnds(text, p, s);
    }
    OccursIsEnds(text, p, i - |p| + 1);
  }

  lemma {:induction false} NoEndAtAll(text: seq<nat>, p: seq<nat>)
    requires p != [] ==> NoneEnds(text, p, |text|)
    ensures p != [] ==> Leftmost(text, p, None)
  {
    forall s: nat
      ensures Occurs(text, p, s) <==> Ends(text, p, s + |p|, |p|)
    {
      OccursIsEnds(text, p, s);
    }
  }

  // ---------- the entry point ----------

  /** Leftmost search on all inputs, whichever branch runs. */
  method MemmemOptional(haystack: seq<nat>, needle: seq<nat>) returns (r: Option<nat>)
    requires Bytes(haystack) && Bytes(needle)
    ensures Leftmost(haystack, needle, r)
  {
    if |needle| == 0 {
      return Some(0);
    }
    if |haystack| < |needle| {
      return None;
    }
    if |haystack| == |needle| {
      assert haystack[0..|haystack|] == haystack;
      if haystack == needle {
        return Some(0);
      }
      assert !Occurs(haystack, needle, 0);
      return None;
    }
    if |needle| < WORD {
      r := BitapBitwise(haystack, needle);
      return;
    }
    assert Joined([haystack]) == Joined([]) + haystack == haystack by {
      assert [haystack][..0] == [];
    }
    r := SearchChunks([haystack], needle);
  }
}
