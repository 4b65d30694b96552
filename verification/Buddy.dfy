/**
 The buddy allocator: N bit sets on the shared bump heap, level j holding one bit for
 every block of 2^j pages.
 */
module Buddy {
  import opened Words
  import opened Bitset
  import opened BuddyRuns
  import opened PageLists

  /** Every level has blocks, and they fill whole words. */
  ghost predicate Geometry(n: nat, orders: nat) {
    orders > 0 && forall j: nat :: j < orders ==> Level(n, j) > 0 && Level(n, j) % 64 == 0
  }

  /** That is: the page count is a positive multiple of 64 * 2^(orders - 1). */
  lemma GeometryIsMultiple(n: nat, orders: nat, d: nat)
    requires orders == d + 1
    ensures Geometry(n, orders) <==> exists q: nat :: q > 0 && n == Multiple(q, d)
  {
    if Geometry(n, orders) {
      var q := Level(n, d) / 64;
      LevelIsExact(n, orders, d);
      assert n == Multiple(q, d);
    }
    forall q: nat | q > 0 && n == Multiple(q, d)
      ensures Geometry(n, orders)
    {
      DoubledIs(64 * q, d);
      forall j: nat | j < orders
        ensures Level(n, j) > 0 && Level(n, j) % 64 == 0
      {
        LevelOfDoubled(64 * q, d, j);
        DoubledWords(64 * q, d - j);
      }
    }
  }

  function Multiple(q: nat, d: nat): nat {
    64 * q * Pow2(d)
  }

  lemma {:induction false} LevelIsExact(n: nat, orders: nat, j: nat)
    requires Geometry(n, orders) && j < orders
    ensures n == Level(n, j) * Pow2(j)
    decreases j
  {
    if j > 0 {
      LevelIsExact(n, orders, j - 1);
      EvenProduct(Level(n, j - 1), Level(n, j), Pow2(j - 1));
    }
  }

  lemma EvenProduct(l: nat, half: nat, p: nat)
    requires l == 2 * half
    ensures half * (2 * p) == l * p
  {
  }

  /** `m` doubled `d` times. */
  function Doubled(m: nat, d: nat): nat {
    if d == 0 then m else 2 * Doubled(m, d - 1)
  }

  lemma {:induction false} DoubledIs(m: nat, d: nat)
    ensures Doubled(m, d) == m * Pow2(d)
  {
    if d > 0 {
      DoubledIs(m, d - 1);
      EvenProduct(2 * m, m, Pow2(d - 1));
    }
  }

  lemma {:induction false} LevelOfDoubled(m: nat, d: nat, j: nat)
    requires j <= d
    ensures Level(Doubled(m, d), j) == Doubled(m, d - j)
    decreases j
  {
    if j > 0 {
      LevelOfDoubled(m, d, j - 1);
    }
  }

  lemma {:induction false} DoubledWords(m: nat, d: nat)
    requires m > 0 && m % 64 == 0
    ensures Doubled(m, d) > 0 && Doubled(m, d) % 64 == 0
  {
    if d > 0 {
      DoubledWords(m, d - 1);
      TwiceWhole(Doubled(m, d - 1));
    }
  }

  lemma TwiceWhole(x: nat)
    requires x % 64 == 0
    ensures (2 * x) % 64 == 0
  {
    assert 2 * x == 64 * (2 * (x / 64));
  }

  /** A request of order 1 and then one of order 0 receive overlapping blocks: 128 pages and
      two orders suffice. */
  lemma LargeThenSmallOverlap()
    ensures var run := [Block(1, 0), Block(0, 0)];
      Geometry(128, 2) && Legal(128, 2, run) && !AllDisjoint(run)
  {
    var run := [Block(1, 0), Block(0, 0)];
    assert run[..0] == [] && run[..1] == [Block(1, 0)];
    assert Holds(run[0], 0) && Holds(run[1], 0);
    assert !Disjoint(run[0], run[1]);
    assert Level(128, 0) == 128 && Level(128, 1) == 64;
  }

  /** First word of level j, the levels being laid out one after the other. */
  ghost function BaseOf(first: nat, n: nat, j: nat): nat {
    if j == 0 then first else BaseOf(first, n, j - 1) + Level(n, j - 1) / 64
  }

  lemma {:induction false} LevelsApart(first: nat, n: nat, i: nat, j: nat)
    requires i < j
    ensures BaseOf(first, n, i) + Level(n, i) / 64 <= BaseOf(first, n, j)
    decreases j
  {
    if i < j - 1 {
      LevelsApart(first, n, i, j - 1);
    }
  }

  /** Bit i of level j. */
  ghost predicate LevelBit(mem: seq<Word>, first: nat, n: nat, j: nat, i: nat) {
    BaseOf(first, n, j) + i / 64 < |mem| && In(mem, BaseOf(first, n, j), i)
  }

  lemma LevelFits(first: nat, n: nat, orders: nat, j: nat, i: nat)
    requires Geometry(n, orders) && j < orders && i < Level(n, j)
    ensures BaseOf(first, n, j) + i / 64 < BaseOf(first, n, orders)
  {
    LevelsApart(first, n, j, orders);
  }

  /** Setting a bit of one level leaves every bit of every other level alone. */
  lemma AssignedLevel(mem: seq<Word>, first: nat, n: nat, orders: nat, c: nat, pos: nat, j: nat, i: nat)
    requires Geometry(n, orders) && c < orders && j < orders
    requires pos < Level(n, c) && i < Level(n, j)
    requires BaseOf(first, n, orders) <= |mem|
    ensures BaseOf(first, n, c) + pos / 64 < |mem|
    ensures LevelBit(Assigned(mem, BaseOf(first, n, c), pos, true), first, n, j, i)
            <==> (j == c && i == pos) || LevelBit(mem, first, n, j, i)
  {
    LevelFits(first, n, orders, c, pos);
    LevelFits(first, n, orders, j, i);
    AssignedIn(mem, BaseOf(first, n, c), pos, true, BaseOf(first, n, j), i);
    if c < j {
      LevelsApart(first, n, c, j);
    } else if j < c {
      LevelsApart(first, n, j, c);
    }
  }

  /** The bitmaps of all levels are exactly the ancestor closure of the blocks. */
  ghost predicate Exact(mem: seq<Word>, first: nat, n: nat, orders: nat, blocks: seq<Block>) {
    forall j: nat, i: nat :: j < orders && i < Level(n, j) ==>
      (LevelBit(mem, first, n, j, i) <==> Marked(blocks, j, i))
  }

  /** Levels [order, upTo) have gained the ancestors of a block; nothing else has changed. */
  ghost predicate Gained(was: seq<Word>, now: seq<Word>, first: nat, n: nat, orders: nat, b: Block, upTo: nat) {
    forall j: nat, i: nat :: j < orders && i < Level(n, j) ==>
      (LevelBit(now, first, n, j, i)
       <==> LevelBit(was, first, n, j, i) || (b.order <= j < upTo && Ancestor(b.index, j - b.order) == i))
  }

  lemma ExactAfter(was: seq<Word>, now: seq<Word>, first: nat, n: nat, orders: nat, blocks: seq<Block>, b: Block)
    requires Exact(was, first, n, orders, blocks) && Gained(was, now, first, n, orders, b, orders)
    ensures Exact(now, first, n, orders, blocks + [b])
  {
    forall j: nat, i: nat | j < orders && i < Level(n, j)
      ensures LevelBit(now, first, n, j, i) <==> Marked(blocks + [b], j, i)
    {
      MarkedAppend(blocks, b, j, i);
    }
  }

  /** Bit `pos` of level `c` has been set; nothing else has changed. */
  ghost predicate OneMore(was: seq<Word>, now: seq<Word>, first: nat, n: nat, orders: nat, c: nat, pos: nat) {
    forall j: nat, i: nat :: j < orders && i < Level(n, j) ==>
      (LevelBit(now, first, n, j, i) <==> LevelBit(was, first, n, j, i) || (j == c && i == pos))
  }

  lemma AssignIsOneMore(mem: seq<Word>, first: nat, n: nat, orders: nat, c: nat, pos: nat)
    requires Geometry(n, orders) && BaseOf(first, n, orders) <= |mem|
    requires c < orders && pos < Level(n, c)
    ensures BaseOf(first, n, c) + pos / 64 < |mem|
    ensures OneMore(mem, Assigned(mem, BaseOf(first, n, c), pos, true), first, n, orders, c, pos)
  {
    LevelFits(first, n, orders, c, pos);
    var now := Assigned(mem, BaseOf(first, n, c), pos, true);
    forall j: nat, i: nat | j < orders && i < Level(n, j)
      ensures LevelBit(now, first, n, j, i) <==> LevelBit(mem, first, n, j, i) || (j == c && i == pos)
    {
      AssignedLevel(mem, first, n, orders, c, pos, j, i);
    }
  }

  lemma GainLevel(was: seq<Word>, mem: seq<Word>, now: seq<Word>, first: nat, n: nat, orders: nat, b: Block, c: nat)
    requires b.order <= c < orders
    requires Gained(was, mem, first, n, orders, b, c)
    requires OneMore(mem, now, first, n, orders, c, Ancestor(b.index, c - b.order))
    ensures Gained(was, now, first, n, orders, b, c + 1)
  {
  }

  /** The marking loop has dealt with levels [b.order, c) and holds the ancestor for level c. */
  ghost predicate Marking(was: seq<Word>, mem: seq<Word>, first: nat, n: nat, orders: nat, b: Block, c: nat, pos: nat) {
    && b.order <= c <= orders
    && pos == Ancestor(b.index, c - b.order)
    && (c < orders ==> pos < Level(n, c))
    && Gained(was, mem, first, n, orders, b, c)
    && SameOutside(was, mem, first, BaseOf(first, n, orders))
  }

  /** Words outside [lo, hi) are as they were. */
  ghost predicate SameOutside(was: seq<Word>, now: seq<Word>, lo: nat, hi: nat) {
    |was| == |now| && forall k :: 0 <= k < |now| && !(lo <= k < hi) ==> now[k] == was[k]
  }

  lemma AssignedInside(was: seq<Word>, mem: seq<Word>, first: nat, n: nat, orders: nat, c: nat, pos: nat)
    requires Geometry(n, orders) && c < orders && pos < Level(n, c) && BaseOf(first, n, orders) <= |mem|
    requires SameOutside(was, mem, first, BaseOf(first, n, orders))
    ensures BaseOf(first, n, c) + pos / 64 < |mem|
    ensures SameOutside(was, Assigned(mem, BaseOf(first, n, c), pos, true), first, BaseOf(first, n, orders))
  {
    LevelFits(first, n, orders, c, pos);
    BaseGrows(first, n, c);
  }

  lemma HalfFits(n: nat, b: Block, c: nat, pos: nat)
    requires b.order <= c && Level(n, c) % 64 == 0
    requires pos == Ancestor(b.index, c - b.order) && pos < Level(n, c)
    ensures pos / 2 == Ancestor(b.index, c + 1 - b.order)
    ensures pos / 2 < Level(n, c + 1)
  {
    var d := c - b.order;
    AncestorStep(b.index, d);
    assert c + 1 - b.order == d + 1;
    HalfBelow(pos, Level(n, c), Level(n, c + 1));
  }

  lemma HalfBelow(pos: nat, l: nat, half: nat)
    requires pos < l && l % 64 == 0 && half == l / 2
    ensures pos / 2 < half
  {
  }

  /** One round of the marking loop. */
  lemma MarkStep(was: seq<Word>, mem: seq<Word>, first: nat, n: nat, orders: nat, b: Block, c: nat, pos: nat)
    requires Geometry(n, orders) && BaseOf(first, n, orders) <= |mem|
    requires Marking(was, mem, first, n, orders, b, c, pos) && c < orders
    ensures BaseOf(first, n, c) + pos / 64 < |mem|
    ensures Marking(was, Assigned(mem, BaseOf(first, n, c), pos, true), first, n, orders, b, c + 1, pos / 2)
  {
    AssignIsOneMore(mem, first, n, orders, c, pos);
    GainLevel(was, mem, Assigned(mem, BaseOf(first, n, c), pos, true), first, n, orders, b, c);
    HalfFits(n, b, c, pos);
    AssignedInside(was, mem, first, n, orders, c, pos);
  }

  lemma LevelWords(first: nat, n: nat, orders: nat, j: nat)
    requires Geometry(n, orders) && j < orders
    ensures Level(n, j) > 0 && Level(n, j) % 64 == 0
    ensures Probed(Level(n, j)) == Scanned(Level(n, j)) == Level(n, j) / 64
    ensures BaseOf(first, n, j) + Level(n, j) / 64 <= BaseOf(first, n, orders)
  {
    LevelsApart(first, n, j, orders);
    WholeWords(Level(n, j));
  }

  lemma WholeWords(count: nat)
    requires count > 0 && count % 64 == 0
    ensures Probed(count) == Scanned(count) == count / 64
  {
  }

  lemma LevelIn(mem: seq<Word>, first: nat, n: nat, orders: nat, blocks: seq<Block>, j: nat, i: nat)
    requires Geometry(n, orders) && BaseOf(first, n, orders) <= |mem| && j < orders && i < Level(n, j)
    requires Exact(mem, first, n, orders, blocks)
    ensures BaseOf(first, n, j) + i / 64 < |mem|
    ensures In(mem, BaseOf(first, n, j), i) <==> Marked(blocks, j, i)
  {
    LevelFits(first, n, orders, j, i);
    assert LevelBit(mem, first, n, j, i) <==> Marked(blocks, j, i);
  }

  /** A level has a clear bit exactly when some block of that order is unmarked. */
  lemma FreeAtLevel(mem: seq<Word>, first: nat, n: nat, orders: nat, blocks: seq<Block>, order: nat)
    requires Geometry(n, orders) && BaseOf(first, n, orders) <= |mem| && order < orders
    requires Exact(mem, first, n, orders, blocks)
    requires BaseOf(first, n, order) + Scanned(Level(n, order)) <= |mem|
    ensures SomeClear(mem, BaseOf(first, n, order), Level(n, order))
            <==> exists i: nat :: i < Level(n, order) && !Marked(blocks, order, i)
  {
    var base := BaseOf(first, n, order);
    forall i: nat | i < Level(n, order)
      ensures base + i / 64 < |mem| && (In(mem, base, i) <==> Marked(blocks, order, i))
    {
      LevelIn(mem, first, n, orders, blocks, order, i);
    }
  }

  lemma WholeScan(count: nat)
    requires count % 64 == 0
    ensures 64 * Scanned(count) == count
  {
  }

  /** What `first_clear` finds on a level with room is the first unmarked block. */
  lemma FirstIsLegal(mem: seq<Word>, first: nat, n: nat, orders: nat, blocks: seq<Block>, b: Block)
    requires Geometry(n, orders) && BaseOf(first, n, orders) <= |mem| && b.order < orders
    requires Exact(mem, first, n, orders, blocks)
    requires BaseOf(first, n, b.order) + Scanned(Level(n, b.order)) <= |mem|
    requires IsFirst(mem, BaseOf(first, n, b.order), Scanned(Level(n, b.order)), false, b.index)
    ensures LegalStep(n, orders, blocks, b)
  {
    assert Level(n, b.order) % 64 == 0;
    WholeScan(Level(n, b.order));
    forall i: nat | i <= b.index
      ensures Marked(blocks, b.order, i) <==> i < b.index
    {
      LevelIn(mem, first, n, orders, blocks, b.order, i);
    }
  }

  lemma {:induction false} BaseGrows(first: nat, n: nat, j: nat)
    ensures first <= BaseOf(first, n, j)
  {
    if j > 0 {
      BaseGrows(first, n, j - 1);
    }
  }

  /** Cleared levels mark no block at all. */
  lemma ZeroIsExact(was: seq<Word>, mem: seq<Word>, first: nat, n: nat, orders: nat)
    requires Geometry(n, orders) && BaseOf(first, n, orders) <= |mem|
    requires Cleared(was, mem, first, BaseOf(first, n, orders) + 1)
    ensures Exact(mem, first, n, orders, [])
  {
    forall j: nat, i: nat | j < orders && i < Level(n, j)
      ensures !LevelBit(mem, first, n, j, i)
    {
      LevelFits(first, n, orders, j, i);
      BaseGrows(first, n, j);
      ZeroBit(i % 64);
    }
  }

  datatype Reply = Panic | Exhausted | Address(addr: Word)

  /** `s` is the bit set of level j: its own words, right after those of level j - 1. */
  ghost predicate IsLevel(s: DynamicBitset, mem: array<Word>, first: nat, n: nat, j: nat) {
    s.mem == mem && s.base == BaseOf(first, n, j) && s.bitcount == Level(n, j)
  }

  /** The first |ss| levels. */
  ghost predicate AreLevels(ss: seq<DynamicBitset>, mem: array<Word>, first: nat, n: nat) {
    forall j :: 0 <= j < |ss| ==> IsLevel(ss[j], mem, first, n, j)
  }

  lemma OneMoreLevel(ss: seq<DynamicBitset>, s: DynamicBitset, mem: array<Word>, first: nat, n: nat)
    requires AreLevels(ss, mem, first, n) && IsLevel(s, mem, first, n, |ss|)
    ensures AreLevels(ss + [s], mem, first, n)
  {
  }

  /** Words [lo, hi) are zero and the others as they were. */
  predicate Cleared(was: seq<Word>, now: seq<Word>, lo: nat, hi: nat) {
    now == WithZeros(was, lo, hi)
  }

  function WithZeros(was: seq<Word>, lo: nat, hi: nat): seq<Word> {
    seq(|was|, k requires 0 <= k < |was| => if lo <= k < hi then 0 else was[k])
  }

  /** End of the words written when i levels have been cleared. */
  ghost function WrittenEnd(f: nat, n: nat, i: nat): nat {
    if i == 0 then f else BaseOf(f, n, i) + 1
  }

  lemma ClearedMore(was: seq<Word>, mid: seq<Word>, now: seq<Word>, f: nat, n: nat, i: nat)
    requires Cleared(was, mid, f, WrittenEnd(f, n, i))
    requires Cleared(mid, now, BaseOf(f, n, i), BaseOf(f, n, i + 1) + 1)
    ensures Cleared(was, now, f, WrittenEnd(f, n, i + 1))
  {
    BaseGrows(f, n, i);
    assert BaseOf(f, n, i) <= BaseOf(f, n, i + 1);
  }

  /** Constructs and clears one level on the heap. */
  method NewLevel(
    heap: DumbAllocator, count: Word,
    ghost f: nat, ghost n: nat, ghost orders: nat, ghost i: nat, ghost initial: seq<Word>)
    returns (level: DynamicBitset)
    requires heap.Valid() && heap.memEnd == heap.start + 8 * BaseOf(f, n, i)
    requires Geometry(n, orders) && i < orders && count == Level(n, i)
    requires BaseOf(f, n, orders) < heap.words.Length
    requires Cleared(initial, heap.words[..], f, WrittenEnd(f, n, i))
    modifies heap`memEnd, heap.words
    ensures IsLevel(level, heap.words, f, n, i)
    ensures heap.Valid() && heap.memEnd == heap.start + 8 * BaseOf(f, n, i + 1)
    ensures Cleared(old(heap.words[..]), heap.words[..], BaseOf(f, n, i), BaseOf(f, n, i + 1) + 1)
    ensures Cleared(initial, heap.words[..], f, WrittenEnd(f, n, i + 1))
  {
    LevelWords(f, n, orders, i);
    StorageCovers(count);
    OverwrittenWords(count);
    level := new DynamicBitset(heap, count);
    level.Fill(false);
    ClearedMore(initial, old(heap.words[..]), heap.words[..], f, n, i);
  }

  /** The loop of the constructor: level after level on the bump heap, each cleared in
      turn. `clear()` writes one word past its own level, which the next level or the
      word after the last one absorbs. */
  method NewLevels(heap: DumbAllocator, n: Word, orders: nat, ghost f: nat) returns (ss: seq<DynamicBitset>)
    requires heap.Valid() && heap.memEnd == heap.start + 8 * f
    requires Geometry(n, orders) && BaseOf(f, n, orders) < heap.words.Length
    modifies heap`memEnd, heap.words
    ensures |ss| == orders && AreLevels(ss, heap.words, f, n)
    ensures heap.memEnd == heap.start + 8 * BaseOf(f, n, orders)
    ensures Cleared(old(heap.words[..]), heap.words[..], f, BaseOf(f, n, orders) + 1)
  {
    ghost var initial := heap.words[..];
    ss := [];
    var count: Word := n;
    var i := 0;
    while i < orders
      invariant 0 <= i == |ss| <= orders && count == Level(n, i)
      invariant heap.memEnd == heap.start + 8 * BaseOf(f, n, i)
      invariant AreLevels(ss, heap.words, f, n)
      invariant heap.Valid() && Cleared(initial, heap.words[..], f, WrittenEnd(f, n, i))
    {
      var level := NewLevel(heap, count, f, n, orders, i, initial);
      OneMoreLevel(ss, level, heap.words, f, n);
      ss := ss + [level];
      count, i := count / 2, i + 1;
    }
  }

  ghost predicate AllEmpty(lists: seq<PageList>)
    reads lists
  {
    forall l :: l in lists ==> l.nodes == [] && l.head == null && l.tail == null
  }

  /** One empty free list for every order. */
  method NewLists(orders: nat) returns (lists: seq<PageList>)
    ensures |lists| == orders && AllEmpty(lists) && fresh(lists)
  {
    lists := [];
    while |lists| < orders
      invariant |lists| <= orders && AllEmpty(lists) && fresh(lists)
    {
      var l := new PageList();
      lists := lists + [l];
    }
  }

  class BuddyAllocator {
    const sets: seq<DynamicBitset>
    const lists: seq<PageList>
    const mem: array<Word>
    /** The page count given; every level is derived from it. */
    ghost const pageCount: nat
    /** `m_page_count`, from which the constructor takes the pages below the blocks. */
    const pagesLeft: Word
    const memStart: Word
    ghost const first: nat
    ghost var blocks: seq<Block>

    ghost predicate Layout()
      reads this
    {
      && Geometry(pageCount, |sets|)
      && BaseOf(first, pageCount, |sets|) <= mem.Length
      && AreLevels(sets, mem, first, pageCount)
    }

    ghost predicate Valid()
      reads this, mem, lists
    {
      && Layout()
      && |lists| == |sets| && AllEmpty(lists)
      && Legal(pageCount, |sets|, blocks)
      && Exact(mem[..], first, pageCount, |sets|, blocks)
    }

    constructor (heap: DumbAllocator, pageCount: Word, orders: nat)
      requires heap.Valid() && Geometry(pageCount, orders)
      requires BaseOf((heap.memEnd - heap.start) / 8, pageCount, orders) < heap.words.Length
      requires heap.start + 8 * heap.words.Length <= TWO_64
      modifies heap`memEnd, heap.words
      ensures Valid() && |sets| == orders && blocks == []
      ensures mem == heap.words && this.pageCount == pageCount
      ensures first == (old(heap.memEnd) - heap.start) / 8
      ensures heap.memEnd == heap.start + 8 * BaseOf(first, pageCount, orders)
      ensures Cleared(old(heap.words[..]), mem[..], first, BaseOf(first, pageCount, orders) + 1)
      ensures heap.memEnd < TWO_64 && memStart == PageRounded(heap.memEnd)
      ensures pagesLeft == (pageCount - memStart / 0x1000) % 0x1_0000_0000_0000_0000
    {
      ghost var f := (heap.memEnd - heap.start) / 8;
      var ss := NewLevels(heap, pageCount, orders, f);
      var rounded := RoundUpPage(heap.memEnd);
      var ls := NewLists(orders);
      sets, lists := ss, ls;
      mem := heap.words;
      this.pageCount := pageCount;
      memStart := rounded;
      pagesLeft := (pageCount - rounded / 0x1000) % 0x1_0000_0000_0000_0000;
      first := f;
      blocks := [];
      new;
      ZeroIsExact(old(heap.words[..]), mem[..], f, pageCount, orders);
    }

    method Alloc(order: nat) returns (r: Reply)
      requires Valid()
      modifies `blocks, mem
      ensures Valid()
      ensures r.Panic? <==> order >= |sets|
      ensures r.Exhausted? <==>
        order < |sets| && MarkedCount(pageCount, old(blocks), order) == Level(pageCount, order)
      ensures !r.Address? ==> blocks == old(blocks) && mem[..] == old(mem[..])
      ensures SameOutside(old(mem[..]), mem[..], first, BaseOf(first, pageCount, |sets|))
      ensures r.Address? ==>
        var b := Block(order, MarkedCount(pageCount, old(blocks), order));
        && LegalStep(pageCount, |sets|, old(blocks), b)
        && blocks == old(blocks) + [b]
        && r.addr == StartOf(memStart, b)
    {
      if order >= |sets| {
        return Reply.Panic;
      }
      var empty := lists[order].Empty();
      if !empty {
        assert false;
      }
      LevelWords(first, pageCount, |sets|, order);
      HasZeroExactness(Level(pageCount, order));
      var z := sets[order].HasZero();
      FreeAtLevel(mem[..], first, pageCount, |sets|, blocks, order);
      NextBlock(pageCount, |sets|, blocks, order);
      CountAtMostLevel(pageCount, blocks, order);
      if !z {
        return Exhausted;
      }
      var addr := Take(order);
      r := Address(addr);
    }

    /** Finds the first clear bit of a level that has one and marks its block. */
    method Take(order: nat) returns (addr: Word)
      requires Valid() && order < |sets|
      requires exists i: nat :: i < Level(pageCount, order) && !Marked(blocks, order, i)
      modifies `blocks, mem
      ensures Valid()
      ensures SameOutside(old(mem[..]), mem[..], first, BaseOf(first, pageCount, |sets|))
      ensures var b := Block(order, MarkedCount(pageCount, old(blocks), order));
        && LegalStep(pageCount, |sets|, old(blocks), b)
        && blocks == old(blocks) + [b]
        && addr == StartOf(memStart, b)
    {
      var indx := FindFirst(order);
      var b := Block(order, indx);
      Mark(b);
      ExactAfter(old(mem[..]), mem[..], first, pageCount, |sets|, blocks, b);
      LegalAppend(pageCount, |sets|, blocks, b);
      blocks := blocks + [b];
      addr := StartOf(memStart, b);
    }

    /** `first_clear` on a level that has a clear bit. */
    method FindFirst(order: nat) returns (indx: nat)
      requires Valid() && order < |sets|
      requires exists i: nat :: i < Level(pageCount, order) && !Marked(blocks, order, i)
      ensures indx == MarkedCount(pageCount, blocks, order)
      ensures LegalStep(pageCount, |sets|, blocks, Block(order, indx))
    {
      var level := sets[order];
      assert IsLevel(level, mem, first, pageCount, order);
      LevelWords(first, pageCount, |sets|, order);
      FreeAtLevel(mem[..], first, pageCount, |sets|, blocks, order);
      var c := level.FirstClear();
      indx := c.value;
      FirstIsLegal(mem[..], first, pageCount, |sets|, blocks, Block(order, indx));
      IndexIsCount(pageCount, |sets|, blocks, Block(order, indx));
    }

    /** Sets the bit of a block and of each of its ancestors. */
    method Mark(b: Block)
      requires Layout() && b.order < |sets| && b.index < Level(pageCount, b.order)
      modifies mem
      ensures Gained(old(mem[..]), mem[..], first, pageCount, |sets|, b, |sets|)
      ensures SameOutside(old(mem[..]), mem[..], first, BaseOf(first, pageCount, |sets|))
    {
      var higher := b.index;
      var curr := b.order;
      while curr < |sets|
        invariant Marking(old(mem[..]), mem[..], first, pageCount, |sets|, b, curr, higher)
      {
        var level := sets[curr];
        assert level.mem == mem && level.base == BaseOf(first, pageCount, curr);
        MarkStep(old(mem[..]), mem[..], first, pageCount, |sets|, b, curr, higher);
        level.Assign(higher, true);
        assert Marking(old(mem[..]), mem[..], first, pageCount, |sets|, b, curr + 1, higher / 2);
        curr, higher := curr + 1, higher / 2;
      }
    }
  }
}
