/** Runs from initialisation that reach the states in which the heap falls short. */
module HeapCases {
  import opened Words
  import opened Pages
  import opened Blocks
  import opened HeapModel
  import opened HeapTheorems
  import opened Coalescing

  // ---------------------------------------------------------------- consecutive pages

  /** Growing from a run of free pages takes its first ones. */
  lemma GrowthOfRun(s: Sys, first: nat, count: nat, pages: nat)
    requires first + count <= MAX_PAGES && 0 < pages && 0 < count && s.free == PageRun(first, count)
    ensures s.free != {} && Lowest(s.free) == first
    ensures var got := if pages < count then pages else count;
            && RunLength(s.free, first, pages) == got
            && Extend(s, pages) == ExtendBy(s, first, got)
            && Extend(s, pages).free == PageRun(first + got, count - got)
  {
    assert first in s.free;
    var got := RunLength(s.free, first, pages);
    assert got < count ==> first + got in s.free;
    assert got > count ==> first + count in s.free;
    assert s.free - PageRun(first, got) == PageRun(first + got, count - got);
  }

  lemma InitialOfRun(count: nat, free: PageSet)
    requires INITIAL_PAGES <= count < MAX_PAGES && free == PageRun(1, count)
    ensures Initial(free)
         == Sys([Block(4096, 65520, true)], 0, 65520, 1, {} + PageRun(1, 16), PageRun(17, count - 16))
  {
    var empty := Sys([], 0, 0, 0, {}, free);
    GrowthOfRun(empty, 1, count, INITIAL_PAGES);
  }

  // ---------------------------------------------------------------- growing in vain

  /** Nothing fits, and all the free pages together are too few. */
  lemma GrowShort(s: Sys, first: nat, count: nat, size: U32)
    requires Fit(s.blocks, size) == |s.blocks| && size > 0 && AlignUp(size) == size
    requires 0 < count <= NeedPages(size) && first + count <= MAX_PAGES && s.free == PageRun(first, count)
    requires PAGE_SIZE * count < HEADER + size
    ensures GrowsInVain(s, size) && Lowest(s.free) == first
    ensures Malloc(s, size) == Allocated(ExtendBy(s, first, count), 0, true)
  {
    GrowthOfRun(s, first, count, NeedPages(size));
  }

  /** With the 20 pages 1 to 20, asking for 100000 bytes fails, and leaves two free blocks that
      touch. */
  lemma VainGrowth(free: PageSet)
    requires free == PageRun(1, 20)
    ensures var s := Initial(free);
            && LeavesPair(s, 100000) && Malloc(s, 100000).ptr == 0
            && Malloc(s, 100000).sys.blocks == [Block(4096, 65520, true), Block(69632, 16368, true)]
            && !Coalesced(Malloc(s, 100000).sys.blocks)
  {
    InitialOfRun(20, free);
    VainStep(Initial(free), 100000);
  }

  lemma VainStep(s: Sys, size: U32)
    requires s.blocks == [Block(4096, 65520, true)] && s.free == PageRun(17, 4) && size == 100000
    ensures LeavesPair(s, size) && Malloc(s, size).ptr == 0
    ensures Malloc(s, size).sys.blocks == [Block(4096, 65520, true), Block(69632, 16368, true)]
    ensures !Coalesced(Malloc(s, size).sys.blocks)
  {
    FitNone(s.blocks, size);
    AlignedAlready(size);
    GrowShort(s, 17, 4, size);
    TouchingPair([Block(4096, 65520, true), Block(69632, 16368, true)]);
  }

  lemma TouchingPair(bs: seq<Block>)
    requires |bs| == 2 && bs[0].free && bs[1].free && Touch(bs[0], bs[1])
    ensures !Coalesced(bs)
  {
  }

  lemma FitNone(bs: seq<Block>, size: nat)
    requires forall k :: 0 <= k < |bs| ==> bs[k].size < size
    ensures Fit(bs, size) == |bs|
  {
  }

  // ---------------------------------------------------------------- the counter below zero

  /** Allocating the whole of `count` new pages when nothing is free. */
  lemma GrowWhole(s: Sys, first: nat, count: nat)
    requires NoneFree(s.blocks) && 0 < count && first + count <= MAX_PAGES && s.free == PageRun(first, count)
    ensures var b, t := NewBlock(first, count), ExtendBy(s, first, count);
            var u := t.(blocks := s.blocks + [b.(free := false)], used := Wrap32(t.used + b.size),
                        freeBytes := Wrap32(t.freeBytes - b.size));
            Malloc(s, b.size) == Allocated(u, b.addr + HEADER, true)
  {
    var b, t := NewBlock(first, count), ExtendBy(s, first, count);
    WholePages(first, count);
    GrowthOfRun(s, first, count, count);
    CarveLast(s.blocks, b);
    assert Malloc(s, b.size) == TakeBlock(t, |s.blocks|, b.size, true);
  }

  lemma WholePages(first: nat, count: nat)
    requires 0 < count <= MAX_PAGES
    ensures var size := NewBlock(first, count).size;
            0 < size < 0x1_0000_0000 && AlignUp(size) == size && NeedPages(size) == count
  {
    assert (PAGE_SIZE * count + PAGE_SIZE - 1) / PAGE_SIZE == count;
  }

  /** Freeing the lower of two blocks in use, then the upper, which touches it. */
  lemma FreeBothBlocks(s: Sys, a: Block, b: Block)
    requires s.blocks == [a, b] && !a.free && !b.free && Touch(a, b)
    ensures Live(s, a.addr + HEADER)
    ensures var t := Free(s, a.addr + HEADER);
            && Live(t, b.addr + HEADER)
            && Free(t, b.addr + HEADER)
            == s.(blocks := [Block(a.addr, a.size + HEADER + b.size, true)],
                  used := Wrap32(Wrap32(s.used - a.size) - b.size),
                  freeBytes := Wrap32(Wrap32(s.freeBytes + a.size) + b.size))
  {
    FreeLower(s, a, b);
    FreeUpper(Free(s, a.addr + HEADER), a.(free := true), b);
  }

  lemma FreeLower(s: Sys, a: Block, b: Block)
    requires s.blocks == [a, b] && !a.free && !b.free
    ensures Live(s, a.addr + HEADER)
    ensures Free(s, a.addr + HEADER)
         == s.(blocks := [a.(free := true), b], used := Wrap32(s.used - a.size), freeBytes := Wrap32(s.freeBytes + a.size))
  {
    assert IndexOf(s.blocks, a.addr + HEADER) == 0;
    assert s.blocks[0 := a.(free := true)] == [a.(free := true), b];
    assert Release(s.blocks, 0) == [a.(free := true), b];
  }

  lemma FreeUpper(s: Sys, a: Block, b: Block)
    requires s.blocks == [a, b] && a.free && !b.free && Touch(a, b)
    ensures Live(s, b.addr + HEADER)
    ensures Free(s, b.addr + HEADER)
         == s.(blocks := [Block(a.addr, a.size + HEADER + b.size, true)],
               used := Wrap32(s.used - b.size), freeBytes := Wrap32(s.freeBytes + b.size))
  {
    assert s.blocks[0].addr != b.addr && IndexOf(s.blocks, b.addr + HEADER) == 1;
    var two := s.blocks[1 := b.(free := true)];
    assert TryMerge(two, 1) == two && Mergeable(two, 0);
    assert Merge(two, 0) == [Block(a.addr, a.size + HEADER + b.size, true)];
  }

  lemma TwoTaken(s: Sys)
    requires s.blocks == [Block(4096, 65520, true)] && s.used == 0 && s.freeBytes == 65520 && s.growths == 1
    requires s.free == PageRun(17, 16)
    ensures var t := Malloc(Malloc(s, 65520).sys, 65520).sys;
            && t.blocks == [Block(4096, 65520, false), Block(69632, 65520, false)]
            && t.used == 131040 && t.freeBytes == 0 && t.growths == 2
  {
    TakeWhole(s, [], s.blocks[0]);
    var a := Malloc(s, 65520).sys;
    GrowWhole(a, 17, 16);
    assert NewBlock(17, 16) == Block(69632, 65520, true);
  }

  lemma BothFreed(s: Sys)
    requires s.blocks == [Block(4096, 65520, false), Block(69632, 65520, false)]
    requires s.used == 131040 && s.freeBytes == 0
    ensures Live(s, 4112) && Live(Free(s, 4112), 69648)
    ensures var t := Free(Free(s, 4112), 69648);
            t.blocks == [Block(4096, 131056, true)] && t.used == 0 && t.freeBytes == 131040 && t.growths == s.growths
  {
    FreeBothBlocks(s, s.blocks[0], s.blocks[1]);
  }

  /** From initialisation on 32 pages, two allocations of 65520 bytes each, both freed: one block
      of two growths, the state of `CounterWraps`. Allocating all of it leaves `free_bytes` below
      zero. */
  lemma CounterWrapsOnRun(free: PageSet, ops: seq<HeapOp>)
    requires free == PageRun(1, 32)
    requires ops == [Kmalloc(65520), Kmalloc(65520), Kfree(4112), Kfree(69648), Kmalloc(131056)]
    ensures var s := Initial(free);
            Inv(s) && Legal(s, ops) && Run(s, ops).freeBytes == 0xFFFF_FFF0 && Run(s, ops).used == 131056
  {
    InitialOfRun(32, free);
    InitialInv(free);
    WrapRun(Initial(free), ops);
  }

  lemma WrapRun(s: Sys, ops: seq<HeapOp>)
    requires Inv(s) && s.blocks == [Block(4096, 65520, true)] && s.used == 0 && s.freeBytes == 65520 && s.growths == 1
    requires s.free == PageRun(17, 16)
    requires ops == [Kmalloc(65520), Kmalloc(65520), Kfree(4112), Kfree(69648), Kmalloc(131056)]
    ensures Legal(s, ops) && Run(s, ops).freeBytes == 0xFFFF_FFF0 && Run(s, ops).used == 131056
  {
    var x, y, z := [ops[0], ops[1]], [ops[2], ops[3]], [ops[4]];
    FirstFour(s, ops[0], ops[1], ops[2], ops[3]);
    assert [ops[0], ops[1], ops[2], ops[3]] == x + y;
    var d := Run(s, x + y);
    CounterWraps(d, d.blocks[0], 131056);
    OneStep(d, ops[4]);
    Chained(s, x + y, z);
    assert ops == x + y + z;
  }

  lemma FirstFour(s: Sys, o0: HeapOp, o1: HeapOp, o2: HeapOp, o3: HeapOp)
    requires Inv(s) && s.blocks == [Block(4096, 65520, true)] && s.used == 0 && s.freeBytes == 65520 && s.growths == 1
    requires s.free == PageRun(17, 16)
    requires o0 == o1 == Kmalloc(65520) && o2 == Kfree(4112) && o3 == Kfree(69648)
    ensures Legal(s, [o0, o1, o2, o3])
    ensures var d := Run(s, [o0, o1, o2, o3]);
            Inv(d) && d.blocks == [Block(4096, 131056, true)] && d.growths == 2
  {
    TwoTaken(s);
    TwoSteps(s, o0, o1);
    var b := Run(s, [o0, o1]);
    BothFreed(b);
    TwoSteps(b, o2, o3);
    Chained(s, [o0, o1], [o2, o3]);
    assert [o0, o1] + [o2, o3] == [o0, o1, o2, o3];
    RunKeeps(s, [o0, o1, o2, o3]);
  }

  lemma OneStep(s: Sys, x: HeapOp)
    requires Allowed(s, x)
    ensures Legal(s, [x]) && Run(s, [x]) == Next(s, x)
  {
    assert [x][1..] == [];
  }

  /** One run after another. */
  lemma {:induction false} Chained(s: Sys, x: seq<HeapOp>, y: seq<HeapOp>)
    requires Legal(s, x)
    ensures Legal(s, x + y) <==> Legal(Run(s, x), y)
    ensures Legal(s, x + y) ==> Run(s, x + y) == Run(Run(s, x), y)
    decreases |x|
  {
    if x == [] {
      assert x + y == y;
    } else {
      assert (x + y)[0] == x[0] && (x + y)[1..] == x[1..] + y;
      Chained(Next(s, x[0]), x[1..], y);
    }
  }

  lemma TwoSteps(s: Sys, x: HeapOp, y: HeapOp)
    requires Allowed(s, x) && Allowed(Next(s, x), y)
    ensures Legal(s, [x, y]) && Run(s, [x, y]) == Next(Next(s, x), y)
  {
    var t := Next(s, x);
    assert [x, y][1..] == [y] && [y][1..] == [];
    assert Legal(Next(t, y), []) && Legal(t, [y]);
    assert Run(t, [y]) == Next(t, y);
  }
}
