/** The kernel heap over the page allocator as a state machine: growing, allocating, freeing. */
module HeapModel {
  import opened Words
  import opened Pages
  import opened Blocks

  const MIN_SPLIT_SIZE := 16

  /** `used` and `freeBytes` are the two counters, `growths` counts successful extensions,
      `pages` is what the heap took from the allocator and `free` what is left there. */
  datatype Sys = Sys(blocks: seq<Block>, used: U32, freeBytes: U32, growths: nat, pages: PageSet, free: PageSet)

  ghost predicate Inv(s: Sys) {
    Layout(s) && Upward(s) && Accounts(s)
  }

  /** The list is address-ordered and 8-aligned, and tiles the heap's pages. */
  ghost predicate Layout(s: Sys) {
    Ordered(s.blocks) && Aligned(s.blocks) && Tiles(s.blocks, s.pages)
  }

  /** `used` is the sum of allocated sizes; headers and payloads add up to the pages; and
      `freeBytes` is off the true free payload by a header per block beyond the growths. */
  predicate Accounts(s: Sys) {
    Balanced(s.blocks, s.used, s.freeBytes, s.growths, |s.pages|)
  }

  predicate Balanced(bs: seq<Block>, used: U32, freeBytes: U32, growths: nat, pages: nat) {
    && used == Used(bs)
    && Used(bs) + Avail(bs) + HEADER * |bs| == PAGE_SIZE * pages
    && freeBytes == Wrap32(Avail(bs) + HEADER * (|bs| - growths))
    && growths <= pages
  }

  /** Every page of the heap lies below every free page, and page 0 is neither. */
  ghost predicate Upward(s: Sys) {
    && (forall p, q :: p in s.pages && q in s.free ==> p < q)
    && 0 !in s.pages && 0 !in s.free
  }

  // ---------------------------------------------------------------- growing

  /** How many consecutive pages from `p` on are free, at most `n`. */
  function RunLength(free: PageSet, p: nat, n: nat): (k: nat)
    ensures k <= n && (n > 0 && p in free ==> k > 0)
    ensures forall q :: p <= q < p + k ==> q in free
    ensures k < n ==> p + k !in free
    decreases n
  {
    if n == 0 || p !in free then 0 else 1 + RunLength(free, p + 1, n - 1)
  }

  function PageRun(first: nat, count: nat): PageSet
    requires first + count <= MAX_PAGES
  {
    set p: int | 0 <= p < MAX_PAGES && InRun(first, count, p)
  }

  predicate InRun(first: nat, count: nat, p: int) {
    first <= p < first + count
  }

  lemma {:induction false} PageRunSize(first: nat, count: nat)
    requires first + count <= MAX_PAGES
    ensures |PageRun(first, count)| == count
  {
    if count > 0 {
      PageRunSize(first, count - 1);
      assert PageRun(first, count) == PageRun(first, count - 1) + {first + count - 1};
    }
  }

  /** The extension of the heap: pages as long as they are consecutive. */
  function Growth(free: PageSet, pages: nat): (r: (nat, nat))
    requires free != {}
    ensures r.0 in free && r.1 > 0 && r.0 + r.1 <= MAX_PAGES && PageRun(r.0, r.1) <= free
  {
    var first := Lowest(free);
    var got := RunLength(free, first, if pages < 1 then 1 else pages);
    assert first + got - 1 in free;
    (first, got)
  }

  function NewBlock(first: nat, got: nat): Block
    requires got > 0
  {
    Block(PAGE_SIZE * first, PAGE_SIZE * got - HEADER, true)
  }

  function Extend(s: Sys, pages: nat): Sys
    requires s.free != {}
  {
    var (first, got) := Growth(s.free, pages);
    ExtendBy(s, first, got)
  }

  /** Pages `first .. first + got` added to the heap as one free block. */
  function ExtendBy(s: Sys, first: nat, got: nat): Sys
    requires got > 0 && first + got <= MAX_PAGES
  {
    var b := NewBlock(first, got);
    Sys(s.blocks + [b], s.used, Wrap32(s.freeBytes + b.size), s.growths + 1,
        s.pages + PageRun(first, got), s.free - PageRun(first, got))
  }

  /** The last byte of a block lies in a page of the heap. */
  lemma BlockInPages(s: Sys, i: nat)
    requires Tiles(s.blocks, s.pages) && i < |s.blocks|
    ensures s.blocks[i].addr / PAGE_SIZE in s.pages && (End(s.blocks[i]) - 1) / PAGE_SIZE in s.pages
  {
    assert Within(s.blocks[i], s.blocks[i].addr) && Covered(s.blocks, s.blocks[i].addr);
    assert Within(s.blocks[i], End(s.blocks[i]) - 1) && Covered(s.blocks, End(s.blocks[i]) - 1);
  }

  /** Because the allocator hands out the lowest page and the heap gives back only what it has
      just taken, the new block lies above every old one. */
  lemma NewBlockIsHighest(s: Sys, first: nat, got: nat)
    requires Inv(s) && first in s.free && got > 0
    ensures Before(s.blocks, [NewBlock(first, got)])
  {
    forall i | 0 <= i < |s.blocks| ensures End(s.blocks[i]) <= PAGE_SIZE * first {
      BlockInPages(s, i);
      assert (End(s.blocks[i]) - 1) / PAGE_SIZE < first;
    }
  }

  lemma ExtendTiles(s: Sys, first: nat, got: nat)
    requires Tiles(s.blocks, s.pages) && got > 0 && first + got <= MAX_PAGES
    ensures Tiles(s.blocks + [NewBlock(first, got)], s.pages + PageRun(first, got))
  {
    var b := NewBlock(first, got);
    forall a: int
      ensures Covered(s.blocks + [b], a) <==> a / PAGE_SIZE in s.pages + PageRun(first, got)
    {
      CoveredConcat(s.blocks, [b], a);
      CoveredOne(b, a);
      assert Covered(s.blocks, a) <==> a / PAGE_SIZE in s.pages;
      assert Within(b, a) <==> first <= a / PAGE_SIZE < first + got;
    }
  }

  lemma LayoutGrows(s: Sys, first: nat, got: nat)
    requires Layout(s) && got > 0 && first + got <= MAX_PAGES && Before(s.blocks, [NewBlock(first, got)])
    ensures var bs := s.blocks + [NewBlock(first, got)];
            Ordered(bs) && Aligned(bs) && Tiles(bs, s.pages + PageRun(first, got))
  {
    OrderGrows(s.blocks, NewBlock(first, got));
    AlignGrows(s.blocks, first, got);
    ExtendTiles(s, first, got);
  }

  lemma OrderGrows(bs: seq<Block>, b: Block)
    requires Ordered(bs) && Before(bs, [b])
    ensures Ordered(bs + [b])
  {
    OrderedConcat(bs, [b]);
  }

  lemma AlignGrows(bs: seq<Block>, first: nat, got: nat)
    requires Aligned(bs) && got > 0
    ensures Aligned(bs + [NewBlock(first, got)])
  {
    AlignedConcat(bs, [NewBlock(first, got)]);
    EightTimes(512 * first);
    EightTimes(512 * got - 2);
  }

  lemma EightTimes(k: nat)
    ensures 8 * k % 8 == 0
  {
  }

  lemma ExtendLayout(s: Sys, pages: nat)
    requires Inv(s) && s.free != {}
    ensures Layout(Extend(s, pages))
  {
    var (first, got) := Growth(s.free, pages);
    NewBlockIsHighest(s, first, got);
    LayoutGrows(s, first, got);
  }

  lemma BalanceGrows(bs: seq<Block>, used: U32, freeBytes: U32, growths: nat, pages: nat, first: nat, got: nat)
    requires Balanced(bs, used, freeBytes, growths, pages) && got > 0
    ensures var b := NewBlock(first, got);
            Balanced(bs + [b], used, Wrap32(freeBytes + b.size), growths + 1, pages + got)
  {
    var b := NewBlock(first, got);
    SumsConcat(bs, [b]);
    SumsOne(b);
    WrapAdd(Avail(bs) + HEADER * (|bs| - growths), b.size);
  }

  lemma PagesGrow(pages: PageSet, first: nat, got: nat)
    requires first + got <= MAX_PAGES && pages !! PageRun(first, got)
    ensures |pages + PageRun(first, got)| == |pages| + got
  {
    PageRunSize(first, got);
  }

  lemma ExtendByAccounts(s: Sys, first: nat, got: nat)
    requires Accounts(s) && got > 0 && first + got <= MAX_PAGES && s.pages !! PageRun(first, got)
    ensures Accounts(ExtendBy(s, first, got))
  {
    PagesGrow(s.pages, first, got);
    BalanceGrows(s.blocks, s.used, s.freeBytes, s.growths, |s.pages|, first, got);
  }

  lemma WrapAdd(x: int, y: int)
    ensures Wrap32(Wrap32(x) + y) == Wrap32(x + y)
  {
  }

  lemma ExtendKeeps(s: Sys, pages: nat)
    requires Inv(s) && s.free != {}
    ensures Inv(Extend(s, pages))
  {
    var (first, got) := Growth(s.free, pages);
    ExtendLayout(s, pages);
    ExtendUpward(s, pages);
    ExtendByAccounts(s, first, got);
  }

  lemma ExtendUpward(s: Sys, pages: nat)
    requires Upward(s) && s.free != {}
    ensures Upward(Extend(s, pages))
    ensures var (first, got) := Growth(s.free, pages); s.pages !! PageRun(first, got)
  {
    var (first, got) := Growth(s.free, pages);
    forall q | q in s.free - PageRun(first, got) ensures first + got <= q {
      assert first <= q;
    }
  }

  // ---------------------------------------------------------------- allocating

  /** `align_up(n, 8)` in 32-bit arithmetic. */
  function AlignUp(n: U32): (r: U32)
    ensures r % 8 == 0
    ensures n <= 0xFFFF_FFF8 ==> n <= r < n + 8
    ensures n > 0xFFFF_FFF8 ==> r == 0
  {
    var w := Wrap32(n + 7);
    w - w % 8
  }

  function NeedPages(size: U32): nat {
    Wrap32(size + HEADER + PAGE_SIZE - 1) / PAGE_SIZE
  }

  /** `ptr` is the payload address, 0 on failure; `grew` tells that the heap was extended. */
  datatype Allocated = Allocated(sys: Sys, ptr: nat, grew: bool)

  /** Take block `i` for `size` bytes. */
  function TakeBlock(s: Sys, i: nat, size: nat, grew: bool): Allocated
    requires i < |s.blocks| && size <= s.blocks[i].size
  {
    var got := Pieces(s.blocks[i], size)[0].size;
    Allocated(s.(blocks := Carve(s.blocks, i, size), used := Wrap32(s.used + got), freeBytes := Wrap32(s.freeBytes - got)),
              s.blocks[i].addr + HEADER, grew)
  }

  /** `kmalloc` */
  function Malloc(s: Sys, request: U32): Allocated {
    if request == 0 then Allocated(s, 0, false)
    else
      var size := AlignUp(request);
      var i := Fit(s.blocks, size);
      if i < |s.blocks| then TakeBlock(s, i, size, false)
      else if s.free == {} then Allocated(s, 0, false)
      else
        var t := Extend(s, NeedPages(size));
        if t.blocks[i].size < size then Allocated(t, 0, true) else TakeBlock(t, i, size, true)
  }

  /** Position of the block whose payload starts at `ptr`, or the length of the list. */
  function IndexOf(bs: seq<Block>, ptr: nat): (i: nat)
    ensures i <= |bs| && (i < |bs| ==> bs[i].addr + HEADER == ptr)
    ensures forall k :: 0 <= k < i ==> bs[k].addr + HEADER != ptr
  {
    if bs == [] || bs[0].addr + HEADER == ptr then 0 else 1 + IndexOf(bs[1..], ptr)
  }

  /** A pointer the heap has handed out and not taken back. */
  predicate Live(s: Sys, ptr: nat) {
    var i := IndexOf(s.blocks, ptr);
    i < |s.blocks| && !s.blocks[i].free
  }

  /** `kfree` of null or of a live pointer. */
  function Free(s: Sys, ptr: nat): Sys
    requires ptr == 0 || Live(s, ptr)
  {
    if ptr == 0 then s
    else
      var i := IndexOf(s.blocks, ptr);
      var size := s.blocks[i].size;
      s.(blocks := Release(s.blocks, i), used := Wrap32(s.used - size), freeBytes := Wrap32(s.freeBytes + size))
  }

  // ---------------------------------------------------------------- the invariant is kept

  lemma TakeBlockKeeps(s: Sys, i: nat, size: nat, grew: bool)
    requires Inv(s) && i < |s.blocks| && s.blocks[i].free && size <= s.blocks[i].size && size % 8 == 0
    ensures Inv(TakeBlock(s, i, size, grew).sys)
  {
    var t := TakeBlock(s, i, size, grew).sys;
    CarveKeeps(s.blocks, i, size);
    forall a: int ensures Covered(t.blocks, a) <==> a / PAGE_SIZE in t.pages {
      CarveCovers(s.blocks, i, size, a);
      assert Covered(s.blocks, a) <==> a / PAGE_SIZE in s.pages;
    }
    PagesBound(s.pages);
    BalanceCarve(s.blocks, s.used, s.freeBytes, s.growths, |s.pages|, i, size);
  }

  lemma BalanceCarve(bs: seq<Block>, used: U32, freeBytes: U32, growths: nat, pages: nat, i: nat, size: nat)
    requires Balanced(bs, used, freeBytes, growths, pages) && pages <= MAX_PAGES
    requires i < |bs| && bs[i].free && size <= bs[i].size
    ensures var got := Pieces(bs[i], size)[0].size;
            Balanced(Carve(bs, i, size), Wrap32(used + got), Wrap32(freeBytes - got), growths, pages)
  {
    var got := Pieces(bs[i], size)[0].size;
    CarveSums(bs, i, size);
    WrapAdd(Avail(bs) + HEADER * (|bs| - growths), 0 - got as int);
  }

  lemma PagesBound(pages: PageSet)
    ensures |pages| <= MAX_PAGES
  {
    PageRunSize(0, MAX_PAGES);
    assert pages <= PageRun(0, MAX_PAGES);
    assert PageRun(0, MAX_PAGES) == pages + (PageRun(0, MAX_PAGES) - pages);
  }

  lemma MallocKeeps(s: Sys, request: U32)
    requires Inv(s)
    ensures Inv(Malloc(s, request).sys)
  {
    if request != 0 {
      var size := AlignUp(request);
      var i := Fit(s.blocks, size);
      if i < |s.blocks| {
        TakeBlockKeeps(s, i, size, false);
      } else if s.free != {} {
        ExtendKeeps(s, NeedPages(size));
        var t := Extend(s, NeedPages(size));
        if t.blocks[i].size >= size {
          TakeBlockKeeps(t, i, size, true);
        }
      }
    }
  }

  lemma TryMergeKeeps(bs: seq<Block>, k: int, pages: PageSet)
    requires Ordered(bs) && Aligned(bs) && Tiles(bs, pages)
    ensures var after := TryMerge(bs, k); Ordered(after) && Aligned(after) && Tiles(after, pages)
  {
    if Mergeable(bs, k) {
      MergeKeeps(bs, k);
      forall a: int ensures Covered(Merge(bs, k), a) <==> a / PAGE_SIZE in pages {
        MergeCovers(bs, k, a);
        assert Covered(bs, a) <==> a / PAGE_SIZE in pages;
      }
    }
  }

  lemma BalanceMerge(bs: seq<Block>, used: U32, freeBytes: U32, growths: nat, pages: nat, k: int)
    requires Balanced(bs, used, freeBytes, growths, pages)
    ensures Balanced(TryMerge(bs, k), used, freeBytes, growths, pages)
  {
    if Mergeable(bs, k) {
      MergeSums(bs, k);
    }
  }

  lemma BalanceFree(bs: seq<Block>, used: U32, freeBytes: U32, growths: nat, pages: nat, i: nat)
    requires Balanced(bs, used, freeBytes, growths, pages) && i < |bs| && !bs[i].free
    ensures Balanced(bs[i := bs[i].(free := true)], Wrap32(used - bs[i].size), Wrap32(freeBytes + bs[i].size), growths, pages)
  {
    SetFreeKeeps(bs, i, 0);
    WrapAdd(Avail(bs) + HEADER * (|bs| - growths), bs[i].size);
  }

  lemma ReleaseKeeps(bs: seq<Block>, i: nat, pages: PageSet)
    requires Ordered(bs) && Aligned(bs) && Tiles(bs, pages) && i < |bs| && !bs[i].free
    ensures var after := Release(bs, i); Ordered(after) && Aligned(after) && Tiles(after, pages)
  {
    var one := bs[i := bs[i].(free := true)];
    SetFreeKeeps(bs, i, 0);
    forall a: int ensures Covered(one, a) <==> a / PAGE_SIZE in pages {
      SetFreeKeeps(bs, i, a);
      assert Covered(bs, a) <==> a / PAGE_SIZE in pages;
    }
    TryMergeKeeps(one, i, pages);
    TryMergeKeeps(TryMerge(one, i), i as int - 1, pages);
  }

  lemma BalanceRelease(bs: seq<Block>, used: U32, freeBytes: U32, growths: nat, pages: nat, i: nat)
    requires Balanced(bs, used, freeBytes, growths, pages) && i < |bs| && !bs[i].free
    ensures Balanced(Release(bs, i), Wrap32(used - bs[i].size), Wrap32(freeBytes + bs[i].size), growths, pages)
  {
    var one := bs[i := bs[i].(free := true)];
    BalanceFree(bs, used, freeBytes, growths, pages, i);
    BalanceMerge(one, Wrap32(used - bs[i].size), Wrap32(freeBytes + bs[i].size), growths, pages, i);
    BalanceMerge(TryMerge(one, i), Wrap32(used - bs[i].size), Wrap32(freeBytes + bs[i].size), growths, pages, i as int - 1);
  }

  lemma FreeKeeps(s: Sys, ptr: nat)
    requires Inv(s) && (ptr == 0 || Live(s, ptr))
    ensures Inv(Free(s, ptr))
  {
    if ptr != 0 {
      var i := IndexOf(s.blocks, ptr);
      ReleaseKeeps(s.blocks, i, s.pages);
      BalanceRelease(s.blocks, s.used, s.freeBytes, s.growths, |s.pages|, i);
    }
  }
}
