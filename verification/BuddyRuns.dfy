/**
 Runs of the buddy allocator on blocks alone: which runs `alloc` produces, and what they
 guarantee. `Buddy` is proved to produce exactly such runs.
 */
module BuddyRuns {
  import opened Words
  import opened Pages

  /** Pages [index * 2^order, (index + 1) * 2^order). */
  datatype Block = Block(order: nat, index: nat)

  /** The block `d` orders up that holds block `m`: what repeated halving computes. */
  function Ancestor(m: nat, d: nat): nat
    decreases d
  {
    if d == 0 then m else Ancestor(m / 2, d - 1)
  }

  lemma {:induction false} AncestorHolds(m: nat, d: nat)
    ensures Ancestor(m, d) * Pow2(d) <= m < (Ancestor(m, d) + 1) * Pow2(d)
    decreases d
  {
    if d > 0 {
      AncestorHolds(m / 2, d - 1);
      TwiceAsLarge(Ancestor(m, d), Pow2(d - 1), m);
    }
  }

  lemma TwiceAsLarge(a: nat, p: nat, m: nat)
    requires a * p <= m / 2 < (a + 1) * p
    ensures a * (2 * p) <= m < (a + 1) * (2 * p)
  {
    assert a * (2 * p) == 2 * (a * p);
    assert (a + 1) * (2 * p) == 2 * ((a + 1) * p);
  }

  /** Repeated halving is division by a power of two. */
  lemma AncestorIsQuotient(m: nat, d: nat)
    ensures Ancestor(m, d) == m / Pow2(d)
  {
    AncestorHolds(m, d);
    QuotientIs(m, Pow2(d), Ancestor(m, d));
  }

  lemma {:induction false} AncestorStep(m: nat, d: nat)
    ensures Ancestor(m, d + 1) == Ancestor(m, d) / 2
    decreases d
  {
    if d > 0 {
      AncestorStep(m / 2, d - 1);
    }
  }

  /** `page_count >> j` */
  function Level(n: nat, j: nat): nat {
    if j == 0 then n else Level(n, j - 1) / 2
  }

  /** A level has the page count divided by a power of two. */
  lemma {:induction false} LevelIsQuotient(n: nat, j: nat)
    ensures Level(n, j) == n / Pow2(j)
    ensures Level(n, j) * Pow2(j) <= n < (Level(n, j) + 1) * Pow2(j)
    decreases j
  {
    if j > 0 {
      LevelIsQuotient(n, j - 1);
      HalfQuotient(n, Level(n, j - 1), Pow2(j - 1), Pow2(j));
    }
    QuotientIs(n, Pow2(j), Level(n, j));
  }

  lemma HalfQuotient(n: nat, l: nat, p: nat, q: nat)
    requires q == 2 * p && l * p <= n < (l + 1) * p
    ensures (l / 2) * q <= n < (l / 2 + 1) * q
  {
    assert (l / 2) * q == (2 * (l / 2)) * p && (l / 2 + 1) * q == (2 * (l / 2) + 2) * p;
    Scale(2 * (l / 2), l, p);
    Scale(l + 1, 2 * (l / 2) + 2, p);
  }

  /** Bit i of level j belongs to the ancestor closure of the blocks. */
  ghost predicate Marked(blocks: seq<Block>, j: nat, i: nat) {
    exists b :: b in blocks && b.order <= j && Ancestor(b.index, j - b.order) == i
  }

  /** Every block is the first one of its order that no earlier block had marked. */
  ghost predicate Legal(n: nat, orders: nat, blocks: seq<Block>) {
    forall k :: 0 <= k < |blocks| ==> LegalStep(n, orders, blocks[..k], blocks[k])
  }

  ghost predicate LegalStep(n: nat, orders: nat, earlier: seq<Block>, b: Block) {
    && b.order < orders
    && b.index < Level(n, b.order)
    && !Marked(earlier, b.order, b.index)
    && forall i: nat :: i < b.index ==> Marked(earlier, b.order, i)
  }

  lemma LegalAppend(n: nat, orders: nat, blocks: seq<Block>, b: Block)
    requires Legal(n, orders, blocks) && LegalStep(n, orders, blocks, b)
    ensures Legal(n, orders, blocks + [b])
  {
    var all := blocks + [b];
    forall k | 0 <= k < |all|
      ensures LegalStep(n, orders, all[..k], all[k])
    {
      if k < |blocks| {
        assert all[..k] == blocks[..k];
      } else {
        assert all[..k] == blocks;
      }
    }
  }

  lemma MarkedAppend(blocks: seq<Block>, b: Block, j: nat, i: nat)
    ensures Marked(blocks + [b], j, i)
            <==> Marked(blocks, j, i) || (b.order <= j && Ancestor(b.index, j - b.order) == i)
  {
    if Marked(blocks, j, i) {
      var c :| c in blocks && c.order <= j && Ancestor(c.index, j - c.order) == i;
      assert c in blocks + [b];
    }
    assert b in blocks + [b];
  }

  // ---------- disjointness ----------

  function FirstPage(b: Block): nat {
    b.index * Pow2(b.order)
  }

  predicate Holds(b: Block, page: nat) {
    FirstPage(b) <= page < (b.index + 1) * Pow2(b.order)
  }

  ghost predicate Disjoint(a: Block, b: Block) {
    forall page: nat :: !(Holds(a, page) && Holds(b, page))
  }

  lemma Scale(x: nat, y: nat, p: nat)
    requires x <= y
    ensures x * p <= y * p
  {
  }

  lemma SharedPage(i: nat, j: nat, p: nat, q: nat, page: nat)
    requires p > 0 && q > 0
    requires i * p <= page < (i + 1) * p
    requires j * (q * p) <= page < (j + 1) * (q * p)
    ensures j == i / q
  {
    assert j * (q * p) == (j * q) * p && (j + 1) * (q * p) == ((j + 1) * q) * p;
    CancelLess(i, (j + 1) * q, p);
    CancelLess(j * q, i + 1, p);
    QuotientIs(i, q, j);
  }

  lemma FirstPageOfDescendant(i: nat, j: nat, p: nat, q: nat)
    requires p > 0 && j * q <= i < (j + 1) * q
    ensures j * (q * p) <= i * p < (j + 1) * (q * p)
    ensures i * p < (i + 1) * p
  {
    assert j * (q * p) == (j * q) * p && (j + 1) * (q * p) == ((j + 1) * q) * p;
    Scale(j * q, i, p);
    Scale(i + 1, (j + 1) * q, p);
  }

  lemma InsideAncestor(a: Block, b: Block)
    requires a.order <= b.order && Ancestor(a.index, b.order - a.order) == b.index
    ensures var first := a.index * Pow2(a.order); Holds(a, first) && Holds(b, first)
  {
    var d := b.order - a.order;
    Pow2Sum(d, a.order);
    AncestorHolds(a.index, d);
    FirstPageOfDescendant(a.index, b.index, Pow2(a.order), Pow2(d));
  }

  lemma OutsideOthers(a: Block, b: Block, page: nat)
    requires a.order <= b.order && Ancestor(a.index, b.order - a.order) != b.index
    requires Holds(a, page)
    ensures !Holds(b, page)
  {
    var d := b.order - a.order;
    Pow2Sum(d, a.order);
    AncestorIsQuotient(a.index, d);
    NoSharedPage(a.index, b.index, Pow2(a.order), Pow2(d), page);
  }

  /** A smaller block either lies inside a larger one, when that is its ancestor, or
      shares no page with it. */
  lemma NestedOrDisjoint(a: Block, b: Block)
    requires a.order <= b.order
    ensures Disjoint(a, b) <==> Ancestor(a.index, b.order - a.order) != b.index
  {
    if Ancestor(a.index, b.order - a.order) == b.index {
      InsideAncestor(a, b);
    } else {
      forall page: nat | Holds(a, page)
        ensures !Holds(b, page)
      {
        OutsideOthers(a, b, page);
      }
    }
  }

  lemma NoSharedPage(i: nat, j: nat, p: nat, q: nat, page: nat)
    requires p > 0 && q > 0 && i * p <= page < (i + 1) * p && j != i / q
    ensures !(j * (q * p) <= page < (j + 1) * (q * p))
  {
    if j * (q * p) <= page < (j + 1) * (q * p) {
      SharedPage(i, j, p, q, page);
    }
  }

  /** In any run, a block shares no page with an earlier block of equal or smaller order. */
  lemma EarlierSmallerDisjoint(n: nat, orders: nat, blocks: seq<Block>, a: nat, b: nat)
    requires Legal(n, orders, blocks)
    requires a < b < |blocks| && blocks[a].order <= blocks[b].order
    ensures Disjoint(blocks[a], blocks[b])
  {
    assert LegalStep(n, orders, blocks[..b], blocks[b]);
    assert blocks[a] in blocks[..b];
    NestedOrDisjoint(blocks[a], blocks[b]);
  }

  ghost predicate DisjointFromAll(blocks: seq<Block>, b: Block) {
    forall a :: a in blocks ==> Disjoint(a, b)
  }

  /** The block at `index` of level `order` lies inside a block handed out at a larger order. */
  ghost predicate InsideLarger(blocks: seq<Block>, order: nat, index: nat) {
    exists a :: a in blocks && a.order > order && Ancestor(index, a.order - order) == a.index
  }

  /** A newly found block is disjoint from every earlier block exactly when it does not lie
      inside an earlier block of a larger order. */
  lemma NewBlockDisjoint(n: nat, orders: nat, blocks: seq<Block>, b: Block)
    requires LegalStep(n, orders, blocks, b)
    ensures DisjointFromAll(blocks, b) <==> !InsideLarger(blocks, b.order, b.index)
  {
    forall a | a in blocks
      ensures Disjoint(a, b) <==> !(a.order > b.order && Ancestor(b.index, a.order - b.order) == a.index)
    {
      if a.order <= b.order {
        NestedOrDisjoint(a, b);
      } else {
        NestedOrDisjoint(b, a);
        assert Disjoint(a, b) <==> Disjoint(b, a);
      }
    }
  }

  ghost predicate AllDisjoint(blocks: seq<Block>) {
    forall a, b :: 0 <= a < b < |blocks| ==> Disjoint(blocks[a], blocks[b])
  }

  /** Requests of non-decreasing order never receive overlapping blocks. */
  lemma MonotoneRunDisjoint(n: nat, orders: nat, blocks: seq<Block>)
    requires Legal(n, orders, blocks)
    requires forall a, b :: 0 <= a < b < |blocks| ==> blocks[a].order <= blocks[b].order
    ensures AllDisjoint(blocks)
  {
    forall a, b | 0 <= a < b < |blocks|
      ensures Disjoint(blocks[a], blocks[b])
    {
      EarlierSmallerDisjoint(n, orders, blocks, a, b);
    }
  }

  // ---------- what the next request returns ----------

  lemma {:induction false} AncestorCompose(m: nat, d: nat, e: nat)
    ensures Ancestor(Ancestor(m, d), e) == Ancestor(m, d + e)
    decreases d
  {
    if d > 0 {
      AncestorCompose(m / 2, d - 1, e);
    }
  }

  lemma {:induction false} AncestorOfMultiple(i: nat, d: nat)
    ensures Ancestor(i * Pow2(d), d) == i
    decreases d
  {
    if d > 0 {
      HalfOfProduct(i, Pow2(d - 1), Pow2(d));
      AncestorOfMultiple(i, d - 1);
    }
  }

  lemma HalfOfProduct(i: nat, p: nat, q: nat)
    requires q == 2 * p
    ensures (i * q) / 2 == i * p
  {
    assert i * q == 2 * (i * p);
  }

  /** Marks propagate to ancestors. */
  lemma MarkedAbove(blocks: seq<Block>, k: nat, x: nat, j: nat)
    requires k <= j && Marked(blocks, k, x)
    ensures Marked(blocks, j, Ancestor(x, j - k))
  {
    var b :| b in blocks && b.order <= k && Ancestor(b.index, k - b.order) == x;
    AncestorCompose(b.index, k - b.order, j - k);
  }

  /** Below an ancestor of a block, everything has a descendant below the block. */
  lemma BelowAncestor(m: nat, d: nat, i: nat)
    requires i < Ancestor(m, d)
    ensures exists x: nat :: x < m && Ancestor(x, d) == i
  {
    var x := i * Pow2(d);
    AncestorOfMultiple(i, d);
    AncestorHolds(m, d);
    Scale(i + 1, Ancestor(m, d), Pow2(d));
    SuccTimes(i, Pow2(d));
    assert x < m;
  }

  /** A block is found only when all before it are marked, so those before its ancestors are. */
  lemma MarkedBefore(n: nat, orders: nat, earlier: seq<Block>, b: Block, j: nat, i: nat)
    requires LegalStep(n, orders, earlier, b) && b.order <= j && i < Ancestor(b.index, j - b.order)
    ensures Marked(earlier, j, i)
  {
    BelowAncestor(b.index, j - b.order, i);
    var x: nat :| x < b.index && Ancestor(x, j - b.order) == i;
    MarkedAbove(earlier, b.order, x, j);
  }

  /** In every run the marked bits of every level form an initial segment. */
  lemma {:induction false} MarkedIsInitialSegment(n: nat, orders: nat, blocks: seq<Block>, j: nat, i: nat, i': nat)
    requires Legal(n, orders, blocks) && Marked(blocks, j, i) && i' < i
    ensures Marked(blocks, j, i')
    decreases |blocks|
  {
    var last := |blocks| - 1;
    var before, b := blocks[..last], blocks[last];
    assert blocks == before + [b];
    LegalPrefix(n, orders, blocks, last);
    MarkedAppend(before, b, j, i);
    MarkedAppend(before, b, j, i');
    if Marked(before, j, i) {
      MarkedIsInitialSegment(n, orders, before, j, i, i');
    } else {
      MarkedBefore(n, orders, before, b, j, i');
    }
  }

  /** The marked bits of level `order`. */
  ghost function MarkedSet(n: nat, blocks: seq<Block>, order: nat): set<nat> {
    set i: nat | i < Level(n, order) && Marked(blocks, order, i)
  }

  /** Their number: what a caller can count before a request. */
  ghost function MarkedCount(n: nat, blocks: seq<Block>, order: nat): nat {
    |MarkedSet(n, blocks, order)|
  }

  /** The index that a request receives is the number of marked bits of its level. */
  lemma IndexIsCount(n: nat, orders: nat, blocks: seq<Block>, b: Block)
    requires Legal(n, orders, blocks) && LegalStep(n, orders, blocks, b)
    ensures b.index == MarkedCount(n, blocks, b.order)
  {
    forall i: nat | i < Level(n, b.order)
      ensures Marked(blocks, b.order, i) <==> i < b.index
    {
      if b.index < i && Marked(blocks, b.order, i) {
        MarkedIsInitialSegment(n, orders, blocks, b.order, i, b.index);
      }
    }
    assert MarkedSet(n, blocks, b.order) == Range(b.index);
  }

  /** Where a level has an unmarked bit, the first one is at the number of marked bits. */
  lemma {:induction false} FirstUnmarked(n: nat, orders: nat, blocks: seq<Block>, order: nat, i: nat)
    requires order < orders && i < Level(n, order) && !Marked(blocks, order, i)
    ensures exists b: Block :: b.order == order && LegalStep(n, orders, blocks, b)
    decreases i
  {
    if forall k: nat :: k < i ==> Marked(blocks, order, k) {
      assert LegalStep(n, orders, blocks, Block(order, i));
    } else {
      var k: nat :| k < i && !Marked(blocks, order, k);
      FirstUnmarked(n, orders, blocks, order, k);
    }
  }

  /** A request succeeds exactly when fewer bits are marked than the level has, and then it
      receives the block at that number. */
  lemma NextBlock(n: nat, orders: nat, blocks: seq<Block>, order: nat)
    requires Legal(n, orders, blocks) && order < orders
    ensures var c := MarkedCount(n, blocks, order);
      && (c < Level(n, order) <==> exists i: nat :: i < Level(n, order) && !Marked(blocks, order, i))
      && (c < Level(n, order) ==> LegalStep(n, orders, blocks, Block(order, c)))
  {
    var size := Level(n, order);
    if i: nat :| i < size && !Marked(blocks, order, i) {
      FirstUnmarked(n, orders, blocks, order, i);
      var b: Block :| b.order == order && LegalStep(n, orders, blocks, b);
      IndexIsCount(n, orders, blocks, b);
      assert b == Block(order, b.index);
    } else {
      assert MarkedSet(n, blocks, order) == Range(size);
    }
  }

  /** So the bitmap of a level is no more than a counter: the marked bits are those below it. */
  lemma MarkedBelowCount(n: nat, orders: nat, blocks: seq<Block>, order: nat, i: nat)
    requires Legal(n, orders, blocks) && order < orders && i < Level(n, order)
    ensures Marked(blocks, order, i) <==> i < MarkedCount(n, blocks, order)
  {
    NextBlock(n, orders, blocks, order);
    var c := MarkedCount(n, blocks, order);
    if c < i && Marked(blocks, order, i) {
      MarkedIsInitialSegment(n, orders, blocks, order, i, c);
    }
  }

  function Max(a: nat, b: nat): nat {
    if a < b then b else a
  }

  function Min(a: nat, b: nat): nat {
    if a < b then a else b
  }

  /** What the counter of level `j` becomes when the bit of `holder` is marked. */
  function Past(n: nat, j: nat, count: nat, holder: nat): nat {
    Max(count, Min(Level(n, j), holder + 1))
  }

  lemma MarkedAfter(n: nat, orders: nat, blocks: seq<Block>, b: Block, j: nat, i: nat)
    requires Legal(n, orders, blocks) && LegalStep(n, orders, blocks, b) && b.order <= j < orders
    requires i < Level(n, j)
    ensures Marked(blocks + [b], j, i)
            <==> i < Past(n, j, MarkedCount(n, blocks, j), Ancestor(b.index, j - b.order))
  {
    var holder := Ancestor(b.index, j - b.order);
    MarkedAppend(blocks, b, j, i);
    MarkedBelowCount(n, orders, blocks, j, i);
    if i < holder {
      LegalAppend(n, orders, blocks, b);
      MarkedAppend(blocks, b, j, holder);
      MarkedIsInitialSegment(n, orders, blocks + [b], j, holder, i);
    }
  }

  /** A block moves the counters of its own level and of those above past its ancestors. */
  lemma CountAfter(n: nat, orders: nat, blocks: seq<Block>, b: Block, j: nat)
    requires Legal(n, orders, blocks) && LegalStep(n, orders, blocks, b) && b.order <= j < orders
    ensures MarkedCount(n, blocks + [b], j)
            == Past(n, j, MarkedCount(n, blocks, j), Ancestor(b.index, j - b.order))
  {
    var count := Past(n, j, MarkedCount(n, blocks, j), Ancestor(b.index, j - b.order));
    forall i: nat | i < Level(n, j)
      ensures Marked(blocks + [b], j, i) <==> i < count
    {
      MarkedAfter(n, orders, blocks, b, j, i);
    }
    CountAtMostLevel(n, blocks, j);
    assert MarkedSet(n, blocks + [b], j) == Range(count);
  }

  lemma CountAtMostLevel(n: nat, blocks: seq<Block>, j: nat)
    ensures MarkedCount(n, blocks, j) <= Level(n, j)
  {
    SubsetSize(MarkedSet(n, blocks, j), Range(Level(n, j)));
  }

  lemma CountBelow(n: nat, blocks: seq<Block>, b: Block, j: nat)
    requires j < b.order
    ensures MarkedCount(n, blocks + [b], j) == MarkedCount(n, blocks, j)
  {
    forall i: nat
      ensures Marked(blocks + [b], j, i) <==> Marked(blocks, j, i)
    {
      MarkedAppend(blocks, b, j, i);
    }
    assert MarkedSet(n, blocks + [b], j) == MarkedSet(n, blocks, j);
  }

  /** The allocator as one counter per order: a request takes the block at its counter. */
  function Counters(n: nat, orders: nat, requests: seq<nat>): (counts: seq<nat>)
    ensures |counts| == orders
  {
    if requests == [] then seq(orders, _ => 0)
    else
      var last := |requests| - 1;
      Bumped(n, Counters(n, orders, requests[..last]), requests[last])
  }

  function Bumped(n: nat, counts: seq<nat>, order: nat): (r: seq<nat>)
    ensures |r| == |counts|
  {
    if order >= |counts| then counts
    else
      seq(|counts|, j requires 0 <= j < |counts| =>
        if j < order then counts[j]
        else Past(n, j, counts[j], Ancestor(counts[order], j - order)))
  }

  function OrdersOf(blocks: seq<Block>): seq<nat> {
    seq(|blocks|, k requires 0 <= k < |blocks| => blocks[k].order)
  }

  /** The counters of all levels. */
  ghost predicate Counted(n: nat, blocks: seq<Block>, counts: seq<nat>) {
    forall j: nat :: j < |counts| ==> counts[j] == MarkedCount(n, blocks, j)
  }

  lemma CountedAfter(n: nat, blocks: seq<Block>, b: Block, counts: seq<nat>)
    requires Legal(n, |counts|, blocks) && LegalStep(n, |counts|, blocks, b)
    requires Counted(n, blocks, counts)
    ensures Counted(n, blocks + [b], Bumped(n, counts, b.order))
  {
    IndexIsCount(n, |counts|, blocks, b);
    var bumped := Bumped(n, counts, b.order);
    forall j: nat | j < |counts|
      ensures bumped[j] == MarkedCount(n, blocks + [b], j)
    {
      if j < b.order {
        CountBelow(n, blocks, b, j);
      } else {
        CountAfter(n, |counts|, blocks, b, j);
      }
    }
  }

  lemma NothingCounted(n: nat, counts: seq<nat>)
    requires forall j :: 0 <= j < |counts| ==> counts[j] == 0
    ensures Counted(n, [], counts)
  {
    forall j: nat | j < |counts|
      ensures MarkedCount(n, [], j) == 0
    {
      assert MarkedSet(n, [], j) == {};
    }
  }

  /** In every run the bitmaps amount to the counters, so the orders requested determine
      every block handed out. */
  lemma {:induction false} RunIsCounters(n: nat, orders: nat, blocks: seq<Block>)
    requires Legal(n, orders, blocks)
    ensures Counted(n, blocks, Counters(n, orders, OrdersOf(blocks)))
    decreases |blocks|
  {
    if blocks == [] {
      NothingCounted(n, Counters(n, orders, []));
      assert OrdersOf(blocks) == [];
    } else {
      var last := |blocks| - 1;
      var before, b := blocks[..last], blocks[last];
      assert blocks == before + [b];
      LegalPrefix(n, orders, blocks, last);
      RunIsCounters(n, orders, before);
      assert OrdersOf(blocks)[..last] == OrdersOf(before);
      CountedAfter(n, before, b, Counters(n, orders, OrdersOf(before)));
    }
  }

  /** The k-th block is the one at the counter of its order. */
  lemma BlockFromCounters(n: nat, orders: nat, blocks: seq<Block>, k: nat)
    requires Legal(n, orders, blocks) && k < |blocks|
    ensures blocks[k].order < orders
    ensures blocks[k].index == Counters(n, orders, OrdersOf(blocks)[..k])[blocks[k].order]
  {
    assert LegalStep(n, orders, blocks[..k], blocks[k]);
    LegalPrefix(n, orders, blocks, k);
    RunIsCounters(n, orders, blocks[..k]);
    IndexIsCount(n, orders, blocks[..k], blocks[k]);
    assert OrdersOf(blocks)[..k] == OrdersOf(blocks[..k]);
  }

  /** Before the call: the block that a request of `order` will receive is disjoint from every
      block handed out so far if and only if the block at the number of marked bits of its
      level lies inside none of a larger order. */
  lemma OverlapForeseen(n: nat, orders: nat, blocks: seq<Block>, order: nat)
    requires Legal(n, orders, blocks) && order < orders
    requires MarkedCount(n, blocks, order) < Level(n, order)
    ensures (forall b: Block :: b.order == order && LegalStep(n, orders, blocks, b) ==> DisjointFromAll(blocks, b))
            <==> !InsideLarger(blocks, order, MarkedCount(n, blocks, order))
  {
    var next := Block(order, MarkedCount(n, blocks, order));
    NextBlock(n, orders, blocks, order);
    NewBlockDisjoint(n, orders, blocks, next);
    forall b: Block | b.order == order && LegalStep(n, orders, blocks, b)
      ensures b == next
    {
      IndexIsCount(n, orders, blocks, b);
    }
  }

  // ---------- addresses ----------

  lemma {:induction false} LevelTimesPower(n: nat, k: nat)
    ensures Level(n, k) * Pow2(k) <= n
    decreases k
  {
    if k > 0 {
      LevelTimesPower(n, k - 1);
      HalfTimesDouble(Level(n, k - 1), Pow2(k - 1));
    }
  }

  lemma HalfTimesDouble(l: nat, p: nat)
    ensures (l / 2) * (2 * p) <= l * p
  {
    assert (l / 2) * (2 * p) == (2 * (l / 2)) * p;
    Scale(2 * (l / 2), l, p);
  }

  /** A block of a run lies within the pages, and the address returned for it belongs to
      its first page. */
  lemma BlockInMemory(n: nat, b: Block, memStart: Word)
    requires b.index < Level(n, b.order) && n <= PAGE_LIMIT
    ensures FirstPage(b) + Pow2(b.order) <= n
    ensures PageOf(memStart, AddressOf(memStart, FirstPage(b))) == FirstPage(b)
  {
    LevelTimesPower(n, b.order);
    Scale(b.index + 1, Level(n, b.order), Pow2(b.order));
    SuccTimes(b.index, Pow2(b.order));
    AddressRoundTrip(memStart, FirstPage(b));
  }

  /** `addr` is one of the `len` byte addresses from `start` on, modulo 2^64. */
  predicate InInterval(start: Word, len: nat, addr: Word) {
    (addr - start) % 0x1_0000_0000_0000_0000 < len
  }

  /** The address returned for a block. */
  function StartOf(memStart: Word, b: Block): Word {
    AddressOf(memStart, FirstPage(b))
  }

  /** Size of a block in bytes. */
  function BytesOf(b: Block): nat {
    0x1000 * Pow2(b.order)
  }

  lemma IntervalOfPages(memStart: Word, first: nat, pages: nat, addr: Word)
    requires first + pages <= PAGE_LIMIT && first < PAGE_LIMIT
    ensures InInterval(AddressOf(memStart, first), 0x1000 * pages, addr)
            <==> first <= PageOf(memStart, addr) < first + pages
  {
    AddressIs(memStart, first);
    var off := (addr - memStart) % 0x1_0000_0000_0000_0000;
    assert off == addr - memStart || off == addr - memStart + TWO_64;
    assert PageOf(memStart, addr) == off / 0x1000;
    if off >= 0x1000 * first {
      assert (addr - AddressOf(memStart, first)) % 0x1_0000_0000_0000_0000 == off - 0x1000 * first;
    } else {
      assert (addr - AddressOf(memStart, first)) % 0x1_0000_0000_0000_0000 == off - 0x1000 * first + TWO_64;
    }
  }

  /** The bytes from the returned address on, as many as the block is long, are exactly the
      bytes of the block's pages, even where the interval wraps around. */
  lemma IntervalIsBlock(n: nat, b: Block, memStart: Word, addr: Word)
    requires b.index < Level(n, b.order) && n <= PAGE_LIMIT
    ensures InInterval(StartOf(memStart, b), BytesOf(b), addr) <==> Holds(b, PageOf(memStart, addr))
  {
    BlockInMemory(n, b, memStart);
    HoldsRange(b);
    IntervalOfPages(memStart, FirstPage(b), Pow2(b.order), addr);
  }

  /** The byte interval at the address returned for a block shares no address with that of an
      earlier block of equal or smaller order. */
  lemma AddressesDisjoint(n: nat, orders: nat, blocks: seq<Block>, a: nat, b: nat, memStart: Word, addr: Word)
    requires Legal(n, orders, blocks) && n <= PAGE_LIMIT
    requires a < b < |blocks| && blocks[a].order <= blocks[b].order
    ensures !(InInterval(StartOf(memStart, blocks[a]), BytesOf(blocks[a]), addr)
              && InInterval(StartOf(memStart, blocks[b]), BytesOf(blocks[b]), addr))
  {
    assert LegalStep(n, orders, blocks[..a], blocks[a]) && LegalStep(n, orders, blocks[..b], blocks[b]);
    IntervalIsBlock(n, blocks[a], memStart, addr);
    IntervalIsBlock(n, blocks[b], memStart, addr);
    EarlierSmallerDisjoint(n, orders, blocks, a, b);
  }

  // ---------- capacity ----------

  function Count(blocks: seq<Block>, k: nat): nat {
    if blocks == [] then 0
    else Count(blocks[..|blocks| - 1], k) + if blocks[|blocks| - 1].order == k then 1 else 0
  }

  ghost function Indices(blocks: seq<Block>, k: nat): set<nat> {
    set b | b in blocks && b.order == k :: b.index
  }

  lemma IndicesAppend(blocks: seq<Block>, b: Block, k: nat)
    ensures Indices(blocks + [b], k) == Indices(blocks, k) + if b.order == k then {b.index} else {}
    ensures b.order == k && b.index in Indices(blocks, k) ==> Marked(blocks, k, b.index)
  {
    var all := blocks + [b];
    assert forall c :: c in all <==> c in blocks || c == b;
    if b.order == k {
      assert b in all;
      forall c | c in blocks && c.order == k
        ensures Marked(blocks, k, c.index)
      {
        assert Ancestor(c.index, k - c.order) == c.index;
      }
    }
  }

  lemma LegalPrefix(n: nat, orders: nat, blocks: seq<Block>, k: nat)
    requires Legal(n, orders, blocks) && k <= |blocks|
    ensures Legal(n, orders, blocks[..k])
  {
    forall j | 0 <= j < k
      ensures LegalStep(n, orders, blocks[..k][..j], blocks[..k][j])
    {
      assert blocks[..k][..j] == blocks[..j];
    }
  }

  lemma IndicesStep(n: nat, orders: nat, earlier: seq<Block>, b: Block, k: nat)
    requires LegalStep(n, orders, earlier, b) && Indices(earlier, k) <= Range(Level(n, k))
    ensures |Indices(earlier + [b], k)| == |Indices(earlier, k)| + if b.order == k then 1 else 0
    ensures Indices(earlier + [b], k) <= Range(Level(n, k))
  {
    IndicesAppend(earlier, b, k);
  }

  lemma CountStep(earlier: seq<Block>, b: Block, k: nat)
    ensures Count(earlier + [b], k) == Count(earlier, k) + if b.order == k then 1 else 0
  {
    assert (earlier + [b])[..|earlier|] == earlier;
  }

  lemma {:induction false} IndicesCount(n: nat, orders: nat, blocks: seq<Block>, k: nat)
    requires Legal(n, orders, blocks)
    ensures |Indices(blocks, k)| == Count(blocks, k)
    ensures Indices(blocks, k) <= Range(Level(n, k))
    decreases |blocks|
  {
    if blocks == [] {
      assert Indices(blocks, k) == {};
    } else {
      var last := |blocks| - 1;
      var before, b := blocks[..last], blocks[last];
      assert blocks == before + [b];
      LegalPrefix(n, orders, blocks, last);
      IndicesCount(n, orders, before, k);
      IndicesStep(n, orders, before, b, k);
      CountStep(before, b, k);
    }
  }

  /** At most `page_count >> k` requests of order k ever succeed. */
  lemma OrderCapacity(n: nat, orders: nat, blocks: seq<Block>, k: nat)
    requires Legal(n, orders, blocks)
    ensures Count(blocks, k) <= Level(n, k)
  {
    IndicesCount(n, orders, blocks, k);
    SubsetSize(Indices(blocks, k), Range(Level(n, k)));
  }

  lemma {:induction false} SubsetSize(a: set<nat>, b: set<nat>)
    requires a <= b
    ensures |a| <= |b|
    decreases |a|
  {
    if a != {} {
      var x :| x in a;
      SubsetSize(a - {x}, b - {x});
    }
  }

  ghost function PagesFrom(first: nat, n: nat): (s: set<nat>)
    ensures |s| == n && forall p: nat :: p in s <==> first <= p < first + n
  {
    if n == 0 then {} else PagesFrom(first, n - 1) + {first + n - 1}
  }

  ghost function PagesOf(b: Block): (s: set<nat>)
    ensures |s| == Pow2(b.order) && forall p: nat :: p in s <==> Holds(b, p)
  {
    HoldsRange(b);
    PagesFrom(FirstPage(b), Pow2(b.order))
  }

  lemma HoldsRange(b: Block)
    ensures forall p: nat :: Holds(b, p) <==> FirstPage(b) <= p < FirstPage(b) + Pow2(b.order)
  {
    SuccTimes(b.index, Pow2(b.order));
  }

  lemma SuccTimes(i: nat, p: nat)
    ensures (i + 1) * p == i * p + p
  {
  }

  ghost function Covered(blocks: seq<Block>): set<nat> {
    if blocks == [] then {} else Covered(blocks[..|blocks| - 1]) + PagesOf(blocks[|blocks| - 1])
  }

  function TotalPages(blocks: seq<Block>): nat {
    if blocks == [] then 0 else TotalPages(blocks[..|blocks| - 1]) + Pow2(blocks[|blocks| - 1].order)
  }

  lemma {:induction false} CoveredPages(blocks: seq<Block>, page: nat)
    requires page in Covered(blocks)
    ensures exists k :: 0 <= k < |blocks| && page in PagesOf(blocks[k])
    decreases |blocks|
  {
    var last := |blocks| - 1;
    if page !in PagesOf(blocks[last]) {
      CoveredPages(blocks[..last], page);
      var k :| 0 <= k < last && page in PagesOf(blocks[..last][k]);
      assert page in PagesOf(blocks[k]);
    }
  }

  lemma PagesApart(a: Block, b: Block)
    requires Disjoint(a, b)
    ensures PagesOf(a) !! PagesOf(b)
  {
    forall p: nat | p in PagesOf(a)
      ensures p !in PagesOf(b)
    {
      assert Holds(a, p);
    }
  }

  lemma LastIsApart(blocks: seq<Block>)
    requires blocks != [] && AllDisjoint(blocks)
    ensures Covered(blocks[..|blocks| - 1]) !! PagesOf(blocks[|blocks| - 1])
  {
    var last := |blocks| - 1;
    var before := blocks[..last];
    forall page | page in Covered(before)
      ensures page !in PagesOf(blocks[last])
    {
      CoveredPages(before, page);
      var k :| 0 <= k < |before| && page in PagesOf(before[k]);
      assert Disjoint(blocks[k], blocks[last]);
      PagesApart(blocks[k], blocks[last]);
    }
  }

  lemma {:induction false} CoveredSize(n: nat, orders: nat, blocks: seq<Block>)
    requires Legal(n, orders, blocks) && AllDisjoint(blocks) && n <= PAGE_LIMIT
    ensures |Covered(blocks)| == TotalPages(blocks) && Covered(blocks) <= Range(n)
    decreases |blocks|
  {
    if blocks != [] {
      var last := |blocks| - 1;
      var before, b := blocks[..last], blocks[last];
      LegalPrefix(n, orders, blocks, last);
      CoveredSize(n, orders, before);
      LastIsApart(blocks);
      UnionSize(Covered(before), PagesOf(b));
      assert LegalStep(n, orders, before, b);
      BlockPages(n, b);
    }
  }

  lemma BlockPages(n: nat, b: Block)
    requires b.index < Level(n, b.order) && n <= PAGE_LIMIT
    ensures PagesOf(b) <= Range(n)
  {
    BlockInMemory(n, b, 0);
    HoldsRange(b);
  }

  /** Blocks that do not overlap never add up to more pages than there are; so it is for every
      run of requests of non-decreasing order. */
  lemma DisjointRunFits(n: nat, orders: nat, blocks: seq<Block>)
    requires Legal(n, orders, blocks) && AllDisjoint(blocks) && n <= PAGE_LIMIT
    ensures TotalPages(blocks) <= n
  {
    CoveredSize(n, orders, blocks);
    SubsetSize(Covered(blocks), Range(n));
  }
}
