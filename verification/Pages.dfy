/**
 The page allocator in use: one bit set, one bit per page, addresses relative to the
 kernel base and computed modulo 2^64.
 */
module Pages {
  import opened Bitset
  import opened Words
  import opened Wrappers

  const PAGE_LIMIT := 0x10_0000_0000_0000  // 2^52 pages fill the address space

  // ---------- addresses ----------

  function P2V(kernelBase: Word, paddr: Word): Word {
    (paddr + kernelBase) % 0x1_0000_0000_0000_0000
  }

  function V2P(kernelBase: Word, vaddr: Word): Word {
    (vaddr - kernelBase) % 0x1_0000_0000_0000_0000
  }

  /** `indx << 12` in 64-bit arithmetic. */
  function Offset(indx: nat): Word {
    indx * 0x1000 % 0x1_0000_0000_0000_0000
  }

  function AddressOf(kernelBase: Word, indx: nat): Word {
    P2V(kernelBase, Offset(indx))
  }

  function PageOf(kernelBase: Word, addr: Word): nat {
    V2P(kernelBase, addr) / 0x1000
  }

  /** Translating an address and back is the identity, even where base plus offset wraps. */
  lemma AddressRoundTrip(kernelBase: Word, indx: nat)
    requires indx < PAGE_LIMIT
    ensures PageOf(kernelBase, AddressOf(kernelBase, indx)) == indx
  {
    var off := indx * 0x1000;
    assert off < TWO_64;
    var addr := AddressOf(kernelBase, indx);
    if kernelBase + off < TWO_64 {
      assert addr == kernelBase + off;
    } else {
      assert addr == kernelBase + off - TWO_64;
      assert (addr - kernelBase) % 0x1_0000_0000_0000_0000 == off;
    }
  }

  /** Distinct pages have distinct addresses, a multiple of the page size apart. */
  lemma AddressesApart(kernelBase: Word, i: nat, j: nat)
    requires i < j < PAGE_LIMIT
    ensures AddressOf(kernelBase, i) != AddressOf(kernelBase, j)
    ensures (AddressOf(kernelBase, j) - AddressOf(kernelBase, i)) % 0x1000 == 0
  {
    AddressRoundTrip(kernelBase, i);
    AddressRoundTrip(kernelBase, j);
    AddressIs(kernelBase, i);
    AddressIs(kernelBase, j);
  }

  /** Base plus offset, possibly wrapped once. */
  lemma AddressIs(kernelBase: Word, indx: nat)
    requires indx < PAGE_LIMIT
    ensures AddressOf(kernelBase, indx) == kernelBase + 0x1000 * indx
            || AddressOf(kernelBase, indx) == kernelBase + 0x1000 * indx - TWO_64
  {
  }

  // ---------- runs ----------

  datatype Event = Alloc(page: nat) | Free(page: nat)

  ghost predicate InRange(events: seq<Event>, n: nat) {
    forall k :: 0 <= k < |events| ==> events[k].page < n
  }

  /** Pages handed out and not given back. */
  ghost function Outstanding(events: seq<Event>): set<nat> {
    if events == [] then {}
    else
      var e := events[|events| - 1];
      var rest := Outstanding(events[..|events| - 1]);
      if e.Alloc? then rest + {e.page} else rest - {e.page}
  }

  /** The memory after a run. */
  ghost function Replay(mem: seq<Word>, base: nat, n: nat, events: seq<Event>): (m: seq<Word>)
    requires base + Scanned(n) <= |mem| && InRange(events, n)
    ensures |m| == |mem|
  {
    if events == [] then mem
    else
      var e := events[|events| - 1];
      Assigned(Replay(mem, base, n, events[..|events| - 1]), base, e.page, e.Alloc?)
  }

  /** Each allocation took what `first_clear` found, and only outstanding pages were freed. */
  ghost predicate Legal(mem: seq<Word>, base: nat, n: nat, events: seq<Event>)
    requires base + Scanned(n) <= |mem|
  {
    && InRange(events, n)
    && (events == [] ||
        var e := events[|events| - 1];
        var before := events[..|events| - 1];
        && Legal(mem, base, n, before)
        && match e
           case Alloc(p) => IsFirst(Replay(mem, base, n, before), base, Scanned(n), false, p)
           case Free(p) => p in Outstanding(before))
  }

  ghost function Taken(mem: seq<Word>, base: nat, n: nat): set<nat>
    requires base + Scanned(n) <= |mem|
  {
    set i | 0 <= i < n && In(mem, base, i)
  }

  ghost function Available(mem: seq<Word>, base: nat, n: nat): set<nat>
    requires base + Scanned(n) <= |mem|
  {
    set i | 0 <= i < n && !In(mem, base, i)
  }

  lemma TakenAfter(mem: seq<Word>, base: nat, n: nat, p: nat, b: bool)
    requires base + Scanned(n) <= |mem| && p < n
    ensures Taken(Assigned(mem, base, p, b), base, n)
            == if b then Taken(mem, base, n) + {p} else Taken(mem, base, n) - {p}
  {
    forall i | 0 <= i < n
      ensures In(Assigned(mem, base, p, b), base, i) == if i == p then b else In(mem, base, i)
    {
      AssignedIn(mem, base, p, b, base, i);
    }
  }

  /** Over every run the set bits are exactly the pages taken at the start plus the
      outstanding ones, and the two never meet. */
  lemma {:induction false} RunInvariant(mem: seq<Word>, base: nat, n: nat, events: seq<Event>)
    requires base + Scanned(n) <= |mem| && Legal(mem, base, n, events)
    ensures Taken(Replay(mem, base, n, events), base, n) == Taken(mem, base, n) + Outstanding(events)
    ensures Taken(mem, base, n) !! Outstanding(events)
    ensures forall p :: p in Outstanding(events) ==> p < n
    decreases |events|
  {
    if events != [] {
      var e := events[|events| - 1];
      var before := events[..|events| - 1];
      RunInvariant(mem, base, n, before);
      var m := Replay(mem, base, n, before);
      TakenAfter(m, base, n, e.page, e.Alloc?);
      if e.Alloc? {
        assert e.page !in Taken(m, base, n);
      }
    }
  }

  /** The page an allocation returns is the least page that is neither reserved nor
      outstanding at that point of the run. */
  lemma AllocIsLeastFree(mem: seq<Word>, base: nat, n: nat, events: seq<Event>, k: nat)
    requires base + Scanned(n) <= |mem| && Legal(mem, base, n, events)
    requires k < |events| && events[k].Alloc?
    ensures var busy := Taken(mem, base, n) + Outstanding(events[..k]);
      events[k].page !in busy && forall q: nat :: q < events[k].page ==> q in busy
  {
    LegalPrefix(mem, base, n, events, k + 1);
    var upTo := events[..k + 1];
    assert upTo[..|upTo| - 1] == events[..k];
    assert upTo[|upTo| - 1] == events[k];
    RunInvariant(mem, base, n, events[..k]);
    var m := Replay(mem, base, n, events[..k]);
    assert IsFirst(m, base, Scanned(n), false, events[k].page);
    forall q: nat | q < events[k].page
      ensures q in Taken(m, base, n)
    {
      assert In(m, base, q) != false;
    }
  }

  lemma {:induction false} LegalPrefix(mem: seq<Word>, base: nat, n: nat, events: seq<Event>, k: nat)
    requires base + Scanned(n) <= |mem| && Legal(mem, base, n, events) && k <= |events|
    ensures Legal(mem, base, n, events[..k])
    decreases |events|
  {
    if k == |events| {
      assert events[..k] == events;
    } else {
      var before := events[..|events| - 1];
      LegalPrefix(mem, base, n, before, k);
      assert before[..k] == events[..k];
    }
  }

  ghost function Range(n: nat): (r: set<nat>)
    ensures forall i: nat :: i in r <==> i < n
    ensures |r| == n
  {
    if n == 0 then {} else Range(n - 1) + {n - 1}
  }

  /** Conservation: free, outstanding and initially reserved pages always add up. */
  lemma PagesAddUp(mem: seq<Word>, base: nat, n: nat, events: seq<Event>)
    requires base + Scanned(n) <= |mem| && Legal(mem, base, n, events)
    ensures |Available(Replay(mem, base, n, events), base, n)| + |Outstanding(events)| + |Taken(mem, base, n)| == n
  {
    RunInvariant(mem, base, n, events);
    TakenOrAvailable(Replay(mem, base, n, events), base, n);
    UnionSize(Taken(mem, base, n), Outstanding(events));
  }

  lemma TakenOrAvailable(mem: seq<Word>, base: nat, n: nat)
    requires base + Scanned(n) <= |mem|
    ensures |Available(mem, base, n)| + |Taken(mem, base, n)| == n
  {
    assert Range(n) == Available(mem, base, n) + Taken(mem, base, n);
    UnionSize(Available(mem, base, n), Taken(mem, base, n));
  }

  lemma UnionSize(a: set<nat>, b: set<nat>)
    requires a !! b
    ensures |a + b| == |a| + |b|
  {
  }

  /** Freeing the page just allocated restores the memory word for word. */
  lemma AllocThenFree(mem: seq<Word>, base: nat, p: nat)
    requires base + p / 64 < |mem| && !In(mem, base, p)
    ensures Assigned(Assigned(mem, base, p, true), base, p, false) == mem
  {
    SetThenClear(mem[base + p / 64], p % 64);
  }

  // ---------- the allocator ----------

  class BitSetPageAllocator {
    const pages: DynamicBitset
    ghost const initial: seq<Word>
    ghost var events: seq<Event>

    ghost predicate Valid()
      reads this, pages.mem
    {
      && pages.base + Scanned(pages.bitcount) <= |initial|
      && Legal(initial, pages.base, pages.bitcount, events)
      && pages.mem[..] == Replay(initial, pages.base, pages.bitcount, events)
    }

    constructor (heap: DumbAllocator, pagecnt: Word)
      requires heap.Valid()
      requires heap.memEnd + 8 * Scanned(pagecnt) <= heap.start + 8 * heap.words.Length
      modifies heap`memEnd
      ensures Valid() && events == [] && pages.bitcount == pagecnt && pages.mem == heap.words
      ensures initial == heap.words[..]
    {
      pages := new DynamicBitset(heap, pagecnt);
      initial := heap.words[..];
      events := [];
    }

    /** `None` is the kernel panic. When every page is taken, a partial last word may
        still yield an index past the last page. */
    method Alloc() returns (addr: Option<Word>)
      requires Valid()
      modifies `events, pages.mem
      ensures addr.None? ==> pages.mem[..] == old(pages.mem[..])
      ensures addr.None? <==> old(AllIn(pages.mem[..], pages.base, Scanned(pages.bitcount), true))
      ensures addr.Some? ==> exists p :: TookFirst(old(pages.mem[..]), p) && addr.value == Offset(p)
      ensures pages.bitcount % 64 == 0 ==>
        (addr.None? <==> !old(SomeClear(pages.mem[..], pages.base, pages.bitcount)))
      ensures old(SomeClear(pages.mem[..], pages.base, pages.bitcount)) ==>
        && Valid()
        && Grew(old(events))
        && addr == Some(Offset(events[|old(events)|].page))
        && TookFree(old(pages.mem[..]), events[|old(events)|].page)
    {
      var indx := pages.FirstClear();
      FirstClearInRange(pages.mem[..], pages.base, pages.bitcount, if indx.Some? then indx.value else 0);
      if indx.None? {
        return None;
      }
      events := events + [Event.Alloc(indx.value)];
      pages.Assign(indx.value, true);
      addr := Some(Offset(indx.value));
      assert TookFirst(old(pages.mem[..]), indx.value);
      assert events[..|old(events)|] == old(events);
    }

    /** One allocation has been added to the run. */
    ghost predicate Grew(before: seq<Event>)
      reads this
    {
      |events| == |before| + 1 && events[..|before|] == before && events[|before|].Alloc?
    }

    /** `p` was the first clear bit of the scanned words and is now set; nothing else changed. */
    ghost predicate TookFirst(was: seq<Word>, p: nat)
      requires pages.base + Scanned(pages.bitcount) <= |was|
      reads pages.mem
    {
      && IsFirst(was, pages.base, Scanned(pages.bitcount), false, p)
      && pages.mem[..] == Assigned(was, pages.base, p, true)
    }

    /** Page `p` was free and is now taken; nothing else changed. */
    ghost predicate TookFree(was: seq<Word>, p: nat)
      requires pages.base + Scanned(pages.bitcount) <= |was|
      reads pages.mem
    {
      && p < pages.bitcount
      && !In(was, pages.base, p)
      && pages.mem[..] == Assigned(was, pages.base, p, true)
    }

    /** Clears the bit of any page address; the run goes on if the page was outstanding. */
    method Free(pageaddr: Word)
      requires Valid() && pages.base + pageaddr / 0x1000 / 64 < pages.mem.Length
      modifies `events, pages.mem
      ensures pages.mem[..] == Assigned(old(pages.mem[..]), pages.base, pageaddr / 0x1000, false)
      ensures pageaddr / 0x1000 in Outstanding(old(events)) ==>
        Valid() && events == old(events) + [Event.Free(pageaddr / 0x1000)]
    {
      RunInvariant(initial, pages.base, pages.bitcount, events);
      events := events + [Event.Free(pageaddr / 0x1000)];
      pages.Assign(pageaddr / 0x1000, false);
      assert events[..|old(events)|] == old(events);
    }
  }

  class PageAllocator {
    const kernelBase: Word
    const pageCount: nat
    const allocator: BitSetPageAllocator

    ghost predicate Valid()
      reads this, allocator, allocator.pages.mem
    {
      allocator.Valid() && allocator.pages.bitcount == pageCount
    }

    ghost function Bitmap(): seq<Word>
      reads this, allocator, allocator.pages.mem
    {
      allocator.pages.mem[..]
    }

    ghost predicate HasFreePage()
      requires Valid()
      reads this, allocator, allocator.pages.mem
    {
      SomeClear(Bitmap(), allocator.pages.base, pageCount)
    }

    /** `paging_init`: the bit set is the first thing on the bump heap after the kernel. */
    constructor (kernelBase: Word, heap: DumbAllocator, pageCount: Word)
      requires heap.Valid()
      requires heap.memEnd + 8 * Scanned(pageCount) <= heap.start + 8 * heap.words.Length
      modifies heap`memEnd
      ensures Valid() && this.kernelBase == kernelBase && this.pageCount == pageCount
      ensures allocator.events == [] && Bitmap() == old(heap.words[..])
    {
      this.kernelBase := kernelBase;
      this.pageCount := pageCount;
      allocator := new BitSetPageAllocator(heap, pageCount);
    }

    method AllocPage() returns (addr: Option<Word>)
      requires Valid()
      modifies allocator`events, allocator.pages.mem
      ensures addr.None? ==> Bitmap() == old(Bitmap())
      ensures addr.None? <==> AllIn(old(Bitmap()), allocator.pages.base, Scanned(pageCount), true)
      ensures addr.Some? ==> exists p ::
        allocator.TookFirst(old(Bitmap()), p) && addr.value == AddressOf(kernelBase, p)
      ensures pageCount % 64 == 0 ==> (addr.None? <==> !old(HasFreePage()))
      ensures old(HasFreePage()) ==>
        && Valid()
        && allocator.Grew(old(allocator.events))
        && addr == Some(AddressOf(kernelBase, allocator.events[|old(allocator.events)|].page))
        && allocator.TookFree(old(Bitmap()), allocator.events[|old(allocator.events)|].page)
    {
      var a := allocator.Alloc();
      if a.None? {
        return None;
      }
      addr := Some(P2V(kernelBase, a.value));
    }

    method FreePage(addr: Word)
      requires Valid() && allocator.pages.base + PageOf(kernelBase, addr) / 64 < allocator.pages.mem.Length
      modifies allocator`events, allocator.pages.mem
      ensures Bitmap() == Assigned(old(Bitmap()), allocator.pages.base, PageOf(kernelBase, addr), false)
      ensures PageOf(kernelBase, addr) in Outstanding(old(allocator.events)) ==>
        Valid() && allocator.events == old(allocator.events) + [Event.Free(PageOf(kernelBase, addr))]
    {
      allocator.Free(V2P(kernelBase, addr));
    }

    /** `free_page(alloc_page())` leaves the bitmap word for word as it was. */
    method AllocThenFreePage()
      requires Valid() && HasFreePage() && pageCount <= PAGE_LIMIT
      modifies allocator`events, allocator.pages.mem
      ensures Valid() && Bitmap() == old(Bitmap())
    {
      var addr := AllocPage();
      ghost var events := allocator.events;
      ghost var last := |old(allocator.events)|;
      ghost var p := events[last].page;
      AddressRoundTrip(kernelBase, p);
      assert p in Outstanding(events) by {
        assert events[|events| - 1] == Event.Alloc(p);
      }
      AllocThenFree(old(Bitmap()), allocator.pages.base, p);
      FreePage(addr.value);
    }
  }
}
