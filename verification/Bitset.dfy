/**
 `dynamic_bitset` on the bump-allocated heap. All bit sets share one memory of 64-bit
 words; a bit set is a window of that memory that starts at its base word.
 */
module Bitset {
  import opened Words
  import opened Wrappers

  /** Whether `i` is in the set based at word `base`. */
  predicate In(mem: seq<Word>, base: nat, i: nat)
    requires base + i / 64 < |mem|
  {
    Bit(mem[base + i / 64], i % 64)
  }

  /** Words that `first_set`, `first_clear` and `is_zero` look at. */
  function Scanned(bitcount: nat): nat {
    (bitcount + 63) / 64
  }

  /** Words that the constructor allocates: ROUND_UP(bitcount >> 3, 8) bytes. */
  function Storage(bitcount: nat): nat {
    (bitcount / 8 + 7) / 8
  }

  /** Words that `clear()` and `set()` overwrite. */
  function Overwritten(bitcount: nat): nat {
    (bitcount + 63 + 63) / 64
  }

  /** Words that the loop of `has_zero` compares with all ones, for a non-zero bit count. */
  function Compared(bitcount: nat): nat
    requires bitcount > 0
  {
    (bitcount - 1 + 63) / 64
  }

  /** Words that `has_zero` reads. */
  function Probed(bitcount: nat): nat
    requires bitcount > 0
  {
    Compared(bitcount) + if bitcount % 64 > 0 then 1 else 0
  }

  /** The allocated storage holds every scanned word exactly when the last, partial word
      has at least eight bits. */
  lemma StorageCovers(bitcount: nat)
    ensures Scanned(bitcount) <= Storage(bitcount) <==> bitcount % 64 == 0 || bitcount % 64 >= 8
    ensures bitcount % 64 == 0 ==> Scanned(bitcount) == Storage(bitcount) == bitcount / 64
    ensures Storage(bitcount) == bitcount / 64 + if bitcount % 64 < 8 then 0 else 1
  {
    var q, r := bitcount / 64, bitcount % 64;
    assert Scanned(bitcount) == q + if r == 0 then 0 else 1;
    assert bitcount / 8 == 8 * q + r / 8;
    assert Storage(bitcount) == q + if r < 8 then 0 else 1;
  }

  /** `clear()` and `set()` stay within the scanned words only when one bit spills over
      into the last word; otherwise they write exactly one word more. */
  lemma OverwrittenWords(bitcount: nat)
    ensures Overwritten(bitcount) == Scanned(bitcount) + if bitcount % 64 == 1 then 0 else 1
  {
  }

  /** The scanned words are as many as the bits need. */
  lemma ScannedWords(bitcount: nat)
    ensures bitcount <= 64 * Scanned(bitcount) < bitcount + 64
  {
  }

  /** Every index of the first `words` words of the set has membership `b`. */
  ghost predicate AllIn(mem: seq<Word>, base: nat, words: nat, b: bool)
    requires base + words <= |mem|
  {
    forall i :: 0 <= i < 64 * words ==> In(mem, base, i) == b
  }

  /** `r` is the least index with membership `b` among the first `words` words. */
  ghost predicate IsFirst(mem: seq<Word>, base: nat, words: nat, b: bool, r: nat)
    requires base + words <= |mem|
  {
    && r < 64 * words
    && In(mem, base, r) == b
    && forall i :: 0 <= i < r ==> In(mem, base, i) != b
  }

  // ---------- one word of a scan ----------

  lemma WordIndex(indx: nat, k: nat)
    requires k < 64
    ensures (64 * indx + k) / 64 == indx && (64 * indx + k) % 64 == k
  {
  }

  /** The word that a scan compares with `-1` or `0` tells whether the scan may go on. */
  lemma ScanWord(mem: seq<Word>, base: nat, indx: nat, b: bool)
    requires base + indx < |mem|
    requires AllIn(mem, base, indx, b)
    ensures mem[base + indx] == (if b then ONES else 0) <==> AllIn(mem, base, indx + 1, b)
  {
    var w := mem[base + indx];
    OnesWord(w);
    ZeroWord(w);
    if w == if b then ONES else 0 {
      forall i | 0 <= i < 64 * (indx + 1)
        ensures In(mem, base, i) == b
      {
        if i >= 64 * indx {
          WordIndex(indx, i - 64 * indx);
          assert Bit(w, i - 64 * indx) == b;
        }
      }
    } else {
      var k :| 0 <= k < 64 && Bit(w, k) != b;
      WordIndex(indx, k);
      assert In(mem, base, 64 * indx + k) != b;
    }
  }

  lemma FirstInWord(mem: seq<Word>, base: nat, words: nat, indx: nat, w: Word, c: nat, b: bool)
    requires base + words <= |mem| && indx < words && w == mem[base + indx]
    requires AllIn(mem, base, indx, !b)
    requires c < 64 && Bit(w, c) == b && forall k :: 0 <= k < c ==> Bit(w, k) == !b
    ensures IsFirst(mem, base, words, b, indx * 64 + c)
  {
    WordIndex(indx, c);
    forall i | 0 <= i < indx * 64 + c
      ensures In(mem, base, i) == !b
    {
      if i >= 64 * indx {
        WordIndex(indx, i - 64 * indx);
      }
    }
  }

  /** What `has_zero` answers, for any non-zero bit count. */
  ghost predicate HasZeroSpec(mem: seq<Word>, base: nat, bitcount: nat)
    requires bitcount > 0 && base + Probed(bitcount) <= |mem|
  {
    var n := 64 * Compared(bitcount);
    exists i :: 0 <= i < n + bitcount % 64 && !In(mem, base, i)
  }

  /** The answer in terms of the bit count: `has_zero` looks at the bits of the set if the last
      word is full or holds one bit, else at all of that word and at as many bits of the next. */
  lemma HasZeroAnswer(mem: seq<Word>, base: nat, bitcount: nat)
    requires bitcount > 0 && base + Probed(bitcount) <= |mem|
    ensures var n := if bitcount % 64 <= 1 then bitcount else 64 * (bitcount / 64 + 1) + bitcount % 64;
      && base + (n + 63) / 64 <= |mem|
      && ((forall i :: 0 <= i < n ==> In(mem, base, i)) ==> !HasZeroSpec(mem, base, bitcount))
      && forall i :: 0 <= i < n && !In(mem, base, i) ==> HasZeroSpec(mem, base, bitcount)
  {
    var q, r := bitcount / 64, bitcount % 64;
    assert Compared(bitcount) == q + if r <= 1 then 0 else 1;
  }

  lemma ZeroFound(mem: seq<Word>, base: nat, bitcount: nat, words: nat)
    requires bitcount > 0 && base + Probed(bitcount) <= |mem| && words <= Compared(bitcount)
    requires !AllIn(mem, base, words, true)
    ensures HasZeroSpec(mem, base, bitcount)
  {
  }

  /** Some index below the bit count is clear. */
  ghost predicate SomeClear(mem: seq<Word>, base: nat, bitcount: nat)
    requires base + Scanned(bitcount) <= |mem|
  {
    exists i :: 0 <= i < bitcount && !In(mem, base, i)
  }

  /** `has_zero` is right about every memory. */
  ghost predicate HasZeroIsExact(bitcount: nat)
    requires bitcount > 0
  {
    forall mem: seq<Word>, base: nat ::
      base + Probed(bitcount) <= |mem| && base + Scanned(bitcount) <= |mem| ==>
        HasZeroSpec(mem, base, bitcount) == SomeClear(mem, base, bitcount)
  }

  /** `has_zero` is right about every memory exactly when the last word of the set is full
      or holds a single bit. */
  lemma HasZeroExactness(bitcount: nat)
    requires bitcount > 0
    ensures HasZeroIsExact(bitcount) <==> bitcount % 64 <= 1
  {
    if bitcount % 64 <= 1 {
      assert 64 * Compared(bitcount) + bitcount % 64 == bitcount;
    } else {
      var mem := FullButPadding(bitcount);
      assert HasZeroSpec(mem, 0, bitcount) && !SomeClear(mem, 0, bitcount);
    }
  }

  /** A memory in which every bit of the set is taken, a padding bit is free, and `has_zero`
      reports room. */
  lemma FullButPadding(bitcount: nat) returns (mem: seq<Word>)
    requires bitcount % 64 >= 2
    ensures Probed(bitcount) <= |mem| && Scanned(bitcount) <= |mem|
    ensures HasZeroSpec(mem, 0, bitcount) && !SomeClear(mem, 0, bitcount)
  {
    var q, r := bitcount / 64, bitcount % 64;
    mem := seq(q, _ => ONES) + [LowMask(r), ONES];
    assert Compared(bitcount) == q + 1 && Scanned(bitcount) == q + 1;
    forall i | 0 <= i <= bitcount
      ensures In(mem, 0, i) == (i < bitcount)
    {
      if i / 64 == q {
        AndLowMaskBit(ONES, r, i % 64);
      } else {
        OnesBit(i % 64);
      }
    }
    assert !In(mem, 0, bitcount);
  }

  /** The index that `first_clear` returns lies below the bit count exactly when some index
      below it is clear; with a full last word a panic means exactly that none is. */
  lemma FirstClearInRange(mem: seq<Word>, base: nat, bitcount: nat, r: nat)
    requires base + Scanned(bitcount) <= |mem|
    ensures IsFirst(mem, base, Scanned(bitcount), false, r) ==> (r < bitcount <==> SomeClear(mem, base, bitcount))
    ensures bitcount % 64 == 0 ==> (AllIn(mem, base, Scanned(bitcount), true) <==> !SomeClear(mem, base, bitcount))
  {
    assert bitcount % 64 == 0 ==> 64 * Scanned(bitcount) == bitcount;
  }

  /** Whatever the memory holds, an index that `first_clear` returns lies below the bit count. */
  ghost predicate FirstClearStaysBelow(bitcount: nat) {
    forall mem: seq<Word>, base: nat, r: nat ::
      base + Scanned(bitcount) <= |mem| && IsFirst(mem, base, Scanned(bitcount), false, r) ==> r < bitcount
  }

  /** `first_clear` keeps below the bit count, whatever the memory holds, exactly when the set
      consists of whole words. */
  lemma FirstClearExactness(bitcount: nat)
    ensures FirstClearStaysBelow(bitcount) <==> bitcount % 64 == 0
  {
    if bitcount % 64 == 0 {
      assert 64 * Scanned(bitcount) == bitcount;
    } else {
      var mem := FullSet(bitcount);
      assert IsFirst(mem, 0, Scanned(bitcount), false, bitcount) && !(bitcount < bitcount);
    }
  }

  /** A memory in which every bit of the set is taken and `first_clear` returns the bit count
      itself, the first padding bit. */
  lemma FullSet(bitcount: nat) returns (mem: seq<Word>)
    requires bitcount % 64 >= 1
    ensures Scanned(bitcount) == |mem| && !SomeClear(mem, 0, bitcount)
    ensures IsFirst(mem, 0, Scanned(bitcount), false, bitcount)
  {
    var q, r := bitcount / 64, bitcount % 64;
    mem := seq(q, _ => ONES) + [LowMask(r)];
    assert Scanned(bitcount) == q + 1;
    forall i | 0 <= i <= bitcount
      ensures In(mem, 0, i) == (i < bitcount)
    {
      if i / 64 == q {
        AndLowMaskBit(ONES, r, i % 64);
      } else {
        OnesBit(i % 64);
      }
    }
    assert !In(mem, 0, bitcount);
  }

  lemma LastWord(mem: seq<Word>, base: nat, indx: nat, r: nat)
    requires base + indx < |mem| && r < 64
    requires AllIn(mem, base, indx, true)
    ensures LowFull(mem[base + indx], r) <==> forall i :: 0 <= i < 64 * indx + r ==> In(mem, base, i)
  {
    var w := mem[base + indx];
    if LowFull(w, r) {
      forall i | 0 <= i < 64 * indx + r
        ensures In(mem, base, i)
      {
        if i >= 64 * indx {
          WordIndex(indx, i - 64 * indx);
        }
      }
    } else {
      var k :| 0 <= k < r && !Bit(w, k);
      WordIndex(indx, k);
      assert !In(mem, base, 64 * indx + k);
    }
  }

  // ---------- one bit of a word ----------

  /** The memory after bit `pos` of the set at `base` has been made `b`. */
  ghost function Assigned(mem: seq<Word>, base: nat, pos: nat, b: bool): seq<Word>
    requires base + pos / 64 < |mem|
  {
    var at := base + pos / 64;
    mem[at := WithBit(mem[at], pos % 64, b)]
  }

  lemma SameBit(base: nat, pos: nat, base': nat, i: nat)
    ensures 64 * base + pos == 64 * base' + i <==> base + pos / 64 == base' + i / 64 && pos % 64 == i % 64
  {
  }

  /** Assigning one bit changes the membership of that index alone, in this set and in any
      other window of the memory. */
  lemma AssignedIn(mem: seq<Word>, base: nat, pos: nat, b: bool, base': nat, i: nat)
    requires base + pos / 64 < |mem| && base' + i / 64 < |mem|
    ensures In(Assigned(mem, base, pos, b), base', i)
            == if 64 * base + pos == 64 * base' + i then b else In(mem, base', i)
  {
    SameBit(base, pos, base', i);
  }

  class DumbAllocator {
    /** The memory from `start` up, as words; `memEnd` is a byte address in it. */
    const start: nat
    const words: array<Word>
    var memEnd: nat

    ghost predicate Valid()
      reads this
    {
      start <= memEnd && (memEnd - start) % 8 == 0
    }

    constructor (start: nat, words: array<Word>)
      ensures this.start == start && this.words == words && memEnd == start && Valid()
    {
      this.start := start;
      this.words := words;
      memEnd := start;
    }

    method Alloc(size: nat) returns (p: nat)
      modifies `memEnd
      ensures p == old(memEnd) && memEnd == p + size
    {
      p := memEnd;
      memEnd := memEnd + size;
    }
  }

  class DynamicBitset {
    const mem: array<Word>
    const base: nat
    const bitcount: nat

    /** Takes the next ROUND_UP(bitcount >> 3, 8) bytes of the heap; leaves their contents alone. */
    constructor (heap: DumbAllocator, bitcount: Word)
      requires heap.Valid()
      modifies heap`memEnd
      ensures mem == heap.words && this.bitcount == bitcount
      ensures base == (old(heap.memEnd) - heap.start) / 8
      ensures heap.Valid() && heap.memEnd == old(heap.memEnd) + 8 * Storage(bitcount)
    {
      var size := RoundUp8(bitcount / 8);
      var p := heap.Alloc(size);
      mem := heap.words;
      base := (p - heap.start) / 8;
      this.bitcount := bitcount;
    }

    /** The least member within the scanned words; `None` is the kernel panic. */
    method FirstSet() returns (r: Option<nat>)
      requires base + Scanned(bitcount) <= mem.Length
      ensures r.None? <==> AllIn(mem[..], base, Scanned(bitcount), false)
      ensures r.Some? ==> IsFirst(mem[..], base, Scanned(bitcount), true, r.value)
    {
      var indx := 0;
      while indx * 64 < bitcount
        invariant 0 <= indx <= Scanned(bitcount)
        invariant AllIn(mem[..], base, indx, false)
      {
        ScanWord(mem[..], base, indx, false);
        if mem[base + indx] != 0 {
          break;
        }
        indx := indx + 1;
      }
      if indx * 64 >= bitcount {
        return None;
      }
      var c := CountTrailingZeros(mem[base + indx]);
      FirstInWord(mem[..], base, Scanned(bitcount), indx, mem[base + indx], c, true);
      r := Some(indx * 64 + c);
    }

    /** The least non-member within the scanned words; `None` is the kernel panic. */
    method FirstClear() returns (r: Option<nat>)
      requires base + Scanned(bitcount) <= mem.Length
      ensures r.None? <==> AllIn(mem[..], base, Scanned(bitcount), true)
      ensures r.Some? ==> IsFirst(mem[..], base, Scanned(bitcount), false, r.value)
    {
      var indx := 0;
      while indx * 64 < bitcount
        invariant 0 <= indx <= Scanned(bitcount)
        invariant AllIn(mem[..], base, indx, true)
      {
        ScanWord(mem[..], base, indx, true);
        if mem[base + indx] != ONES {
          break;
        }
        indx := indx + 1;
      }
      if indx * 64 >= bitcount {
        return None;
      }
      var c := LeastClearBit(mem[base + indx]);
      FirstInWord(mem[..], base, Scanned(bitcount), indx, mem[base + indx], c, false);
      r := Some(indx * 64 + c);
    }

    method IsZero() returns (z: bool)
      requires base + Scanned(bitcount) <= mem.Length
      ensures z <==> AllIn(mem[..], base, Scanned(bitcount), false)
    {
      var indx := 0;
      while indx * 64 < bitcount
        invariant 0 <= indx <= Scanned(bitcount)
        invariant AllIn(mem[..], base, indx, false)
      {
        ScanWord(mem[..], base, indx, false);
        if mem[base + indx] != 0 {
          return false;
        }
        indx := indx + 1;
      }
      return true;
    }

    /** Compares `Compared` words with all ones, then the low bits of the word after them. */
    method HasZero() returns (z: bool)
      requires bitcount > 0 && base + Probed(bitcount) <= mem.Length
      ensures z <==> HasZeroSpec(mem[..], base, bitcount)
    {
      var indx := 0;
      while indx * 64 < bitcount - 1
        invariant 0 <= indx <= Compared(bitcount)
        invariant AllIn(mem[..], base, indx, true)
      {
        ScanWord(mem[..], base, indx, true);
        if mem[base + indx] != ONES {
          ZeroFound(mem[..], base, bitcount, indx + 1);
          return true;
        }
        indx := indx + 1;
      }
      assert indx == Compared(bitcount);
      var remainder := bitcount % 64;
      if remainder > 0 {
        LowBits(mem[base + indx], remainder);
        LastWord(mem[..], base, indx, remainder);
        if And(mem[base + indx], LowMask(remainder)) != LowMask(remainder) {
          return true;
        }
      }
      return false;
    }

    /** Overwrites the words of the set, and in most cases one word more, with zeros or ones. */
    method Fill(b: bool)
      requires base + Overwritten(bitcount) <= mem.Length
      modifies mem
      ensures forall k :: 0 <= k < mem.Length ==>
        mem[k] == if base <= k < base + Overwritten(bitcount) then (if b then ONES else 0) else old(mem[k])
      ensures AllIn(mem[..], base, Overwritten(bitcount), b)
    {
      var indx := 0;
      while indx * 64 < bitcount + 63
        invariant 0 <= indx <= Overwritten(bitcount)
        invariant AllIn(mem[..], base, indx, b)
        invariant forall k :: 0 <= k < mem.Length ==>
          mem[k] == if base <= k < base + indx then (if b then ONES else 0) else old(mem[k])
      {
        ghost var was := mem[..];
        mem[base + indx] := if b then ONES else 0;
        assert forall i :: 0 <= i < 64 * indx ==> In(mem[..], base, i) == In(was, base, i);
        ScanWord(mem[..], base, indx, b);
        indx := indx + 1;
      }
    }

    // ---------- the `reference` proxy ----------

    method Test(pos: nat) returns (b: bool)
      requires base + pos / 64 < mem.Length
      ensures b == In(mem[..], base, pos)
    {
      TestBit(mem[base + pos / 64], pos % 64);
      b := And(mem[base + pos / 64], Bitmask(pos % 64)) != 0;
    }

    method Assign(pos: nat, b: bool)
      requires base + pos / 64 < mem.Length
      modifies mem
      ensures mem[..] == Assigned(old(mem[..]), base, pos, b)
    {
      var at := base + pos / 64;
      ghost var w := mem[at];
      if b {
        OrSetsBit(w, pos % 64);
        mem[at] := Or(mem[at], Bitmask(pos % 64));
      } else {
        AndClearsBit(w, pos % 64);
        mem[at] := And(mem[at], Not(Bitmask(pos % 64)));
      }
      WithBitIs(mem[at], w, pos % 64, b);
    }

    /** Assignment from another reference, possibly into the same word. */
    method AssignFrom(pos: nat, other: DynamicBitset, from: nat)
      requires base + pos / 64 < mem.Length
      requires other.base + from / 64 < other.mem.Length
      modifies mem
      ensures mem[..] == Assigned(old(mem[..]), base, pos, old(In(other.mem[..], other.base, from)))
    {
      var b := other.Test(from);
      Assign(pos, b);
    }

    method Flip(pos: nat)
      requires base + pos / 64 < mem.Length
      modifies mem
      ensures mem[..] == Assigned(old(mem[..]), base, pos, !old(In(mem[..], base, pos)))
    {
      var at := base + pos / 64;
      ghost var w := mem[at];
      XorFlipsBit(w, pos % 64);
      mem[at] := Xor(mem[at], Bitmask(pos % 64));
      WithBitIs(mem[at], w, pos % 64, !Bit(w, pos % 64));
    }
  }
}
