/** When an allocation succeeds, which block it takes, and by how much it grows the heap. */
module HeapGrowth {
  import opened Words
  import opened Pages
  import opened Blocks
  import opened HeapModel
  import opened HeapTheorems

  /** Some free block is large enough. */
  predicate Fits(bs: seq<Block>, size: nat) {
    exists i :: 0 <= i < |bs| && bs[i].free && size <= bs[i].size
  }

  predicate Consecutive(free: PageSet, n: nat) {
    forall q :: Lowest(free) <= q < Lowest(free) + n ==> q in free
  }

  /** `n` pages hold a header and the payload. */
  predicate Holds(n: nat, size: nat) {
    HEADER + size <= PAGE_SIZE * n
  }

  /** The `n` pages from the lowest free one on are free and hold the payload. */
  predicate Enough(free: PageSet, n: nat, size: nat) {
    n > 0 && Consecutive(free, n) && Holds(n, size)
  }

  lemma EnoughIsSmall(free: PageSet, n: nat, size: nat)
    requires Enough(free, n, size)
    ensures free != {} && Lowest(free) + n <= MAX_PAGES && size < PAGE_SIZE * MAX_PAGES
  {
    var first := Lowest(free);
    assert first in free && first + n - 1 in free;
  }

  /** The number of pages asked for is the least that holds the payload. */
  lemma NeedIsLeast(size: U32, n: nat)
    requires size < 0xFFFF_0000
    ensures Holds(NeedPages(size), size) && NeedPages(size) > 0
    ensures Holds(n, size) ==> NeedPages(size) <= n
  {
  }

  lemma NoFit(bs: seq<Block>, size: nat)
    ensures Fits(bs, size) <==> Fit(bs, size) < |bs|
  {
  }

  lemma GrowthCount(s: Sys, size: U32)
    requires s.free != {} && size < 0xFFFF_0000
    ensures var got := RunLength(s.free, Lowest(s.free), NeedPages(size));
            && 0 < got && Extend(s, NeedPages(size)) == ExtendBy(s, Lowest(s.free), got)
            && Consecutive(s.free, got)
            && (got < NeedPages(size) ==> !Holds(got, size) && Lowest(s.free) + got !in s.free)
            && (got == NeedPages(size) ==> Holds(got, size))
  {
    NeedIsLeast(size, RunLength(s.free, Lowest(s.free), NeedPages(size)));
  }

  /** An allocation succeeds if and only if it asks for something and either some free block is
      large enough or enough consecutive pages are free from the lowest one on. */
  lemma SucceedsIff(s: Sys, request: U32)
    requires Inv(s)
    ensures Malloc(s, request).ptr != 0
       <==> request != 0 && (Fits(s.blocks, AlignUp(request)) || exists n :: Enough(s.free, n, AlignUp(request)))
  {
    var size := AlignUp(request);
    NoFit(s.blocks, size);
    if request != 0 && !Fits(s.blocks, size) && s.free != {} {
      GrowingSucceedsIff(s, request);
    }
    forall n | Enough(s.free, n, size) ensures s.free != {} {
      EnoughIsSmall(s.free, n, size);
    }
  }

  lemma GrowingSucceedsIff(s: Sys, request: U32)
    requires Inv(s) && request != 0 && !Fits(s.blocks, AlignUp(request)) && s.free != {}
    ensures Malloc(s, request).ptr != 0 <==> exists n :: Enough(s.free, n, AlignUp(request))
    ensures Malloc(s, request).ptr != 0 ==> AlignUp(request) < 0xFFFF_0000
  {
    var size, need := AlignUp(request), NeedPages(AlignUp(request));
    NoFit(s.blocks, size);
    var (first, got) := Growth(s.free, need);
    assert Extend(s, need).blocks[|s.blocks|] == NewBlock(first, got);
    assert Malloc(s, request).ptr != 0 <==> Holds(got, size);
    if Holds(got, size) {
      assert Enough(s.free, got, size);
      EnoughIsSmall(s.free, got, size);
    }
    forall n | Enough(s.free, n, size) ensures Holds(got, size) {
      EnoughIsSmall(s.free, n, size);
      NeedIsLeast(size, n);
      assert got < need ==> first + got !in s.free;
    }
  }

  /** The heap grew by exactly these pages. */
  ghost predicate GrewBy(s: Sys, t: Sys, n: nat) {
    && Lowest(s.free) + n <= MAX_PAGES && n > 0
    && t.pages == s.pages + PageRun(Lowest(s.free), n) && t.free == s.free - PageRun(Lowest(s.free), n)
  }

  /** The least number of pages that holds the payload. */
  ghost predicate GrewByLeast(s: Sys, t: Sys, n: nat, size: nat) {
    GrewBy(s, t, n) && Enough(s.free, n, size) && !Holds(n - 1, size)
  }

  /** All the consecutive pages there were. */
  ghost predicate GrewToTheGap(s: Sys, t: Sys, n: nat) {
    GrewBy(s, t, n) && Consecutive(s.free, n) && Lowest(s.free) + n !in s.free
  }

  /** What growing leaves, whether or not it is enough. */
  lemma Grown(s: Sys, request: U32)
    requires Inv(s) && request != 0 && AlignUp(request) < 0xFFFF_0000
    requires !Fits(s.blocks, AlignUp(request)) && s.free != {}
    ensures var size := AlignUp(request);
            var n := RunLength(s.free, Lowest(s.free), NeedPages(size));
            && GrewBy(s, Malloc(s, request).sys, n)
            && (Malloc(s, request).ptr != 0 <==> Holds(n, size))
  {
    var size := AlignUp(request);
    var n := RunLength(s.free, Lowest(s.free), NeedPages(size));
    NoFit(s.blocks, size);
    GrowthCount(s, size);
    var t := ExtendBy(s, Lowest(s.free), n);
    assert t.blocks[|s.blocks|] == NewBlock(Lowest(s.free), n);
    if Holds(n, size) {
      assert Malloc(s, request) == TakeBlock(t, |s.blocks|, size, true);
    } else {
      assert Malloc(s, request) == Allocated(t, 0, true);
    }
  }

  /** When nothing fits and the allocation succeeds, it takes the least number of pages that
      holds the payload. */
  lemma GrowsByLeast(s: Sys, request: U32)
    requires Inv(s) && request != 0 && !Fits(s.blocks, AlignUp(request)) && Malloc(s, request).ptr != 0
    ensures exists n :: GrewByLeast(s, Malloc(s, request).sys, n, AlignUp(request))
  {
    var size := AlignUp(request);
    NoFit(s.blocks, size);
    GrowingSucceedsIff(s, request);
    Grown(s, request);
    GrowthCount(s, size);
    var n := RunLength(s.free, Lowest(s.free), NeedPages(size));
    NeedIsLeast(size, n - 1);
    assert GrewByLeast(s, Malloc(s, request).sys, n, size);
  }

  /** When it fails for want of pages, it has taken every consecutive page there was. */
  lemma GrowsToTheGap(s: Sys, request: U32)
    requires Inv(s) && request != 0 && AlignUp(request) < 0xFFFF_0000
    requires !Fits(s.blocks, AlignUp(request)) && s.free != {} && Malloc(s, request).ptr == 0
    ensures exists n :: GrewToTheGap(s, Malloc(s, request).sys, n)
  {
    var size := AlignUp(request);
    Grown(s, request);
    var n := RunLength(s.free, Lowest(s.free), NeedPages(size));
    GapAfter(s, size, n);
    assert GrewToTheGap(s, Malloc(s, request).sys, n);
  }

  lemma GapAfter(s: Sys, size: U32, n: nat)
    requires s.free != {} && size < 0xFFFF_0000 && !Holds(n, size)
    requires n == RunLength(s.free, Lowest(s.free), NeedPages(size))
    ensures Consecutive(s.free, n) && Lowest(s.free) + n !in s.free
  {
    GrowthCount(s, size);
  }

  /** First fit: the lowest free block that is large enough, and no page is taken. */
  lemma FirstFit(s: Sys, request: U32, i: nat)
    requires Inv(s) && request != 0 && i < |s.blocks| && s.blocks[i].free && AlignUp(request) <= s.blocks[i].size
    ensures var r := Malloc(s, request);
            && r.ptr != 0 && r.ptr <= s.blocks[i].addr + HEADER && r.sys.pages == s.pages && r.sys.free == s.free
            && exists k :: 0 <= k <= i && s.blocks[k].free && s.blocks[k].addr + HEADER == r.ptr
  {
    var k := Fit(s.blocks, AlignUp(request));
    assert k < i ==> End(s.blocks[k]) <= s.blocks[i].addr;
  }

  /** No allocation splits off a free block of fewer than 16 bytes. */
  lemma NoSlivers(s: Sys, request: U32, b: Block)
    requires Inv(s) && b in Malloc(s, request).sys.blocks && b.free && b !in s.blocks
    ensures b.size >= 16
  {
    var size := AlignUp(request);
    if request != 0 {
      var i := Fit(s.blocks, size);
      if i < |s.blocks| {
        CarveMembers(s.blocks, i, size, b);
      } else if s.free != {} {
        var t := Extend(s, NeedPages(size));
        ExtendShape(s, NeedPages(size));
        if t.blocks[i].size >= size {
          CarveMembers(t.blocks, i, size, b);
        }
        assert t.blocks[i].size >= PAGE_SIZE - HEADER;
      }
    }
  }

  lemma CarveMembers(bs: seq<Block>, i: nat, size: nat, b: Block)
    requires i < |bs| && size <= bs[i].size && b in Carve(bs, i, size) && b.free
    ensures b in bs || b.size >= 16
  {
  }

  /** Asking for nothing and freeing null change nothing. */
  lemma NullCalls(s: Sys)
    ensures Malloc(s, 0) == Allocated(s, 0, false) && Free(s, 0) == s
  {
  }
}
