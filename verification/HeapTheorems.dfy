/** What every run of `kmalloc` and `kfree` guarantees. */
module HeapTheorems {
  import opened Words
  import opened Pages
  import opened Blocks
  import opened HeapModel

  // ---------------------------------------------------------------- runs

  datatype HeapOp = Kmalloc(request: U32) | Kfree(ptr: nat)

  /** Only null or live pointers are freed. */
  predicate Allowed(s: Sys, op: HeapOp) {
    op.Kfree? ==> op.ptr == 0 || Live(s, op.ptr)
  }

  function Next(s: Sys, op: HeapOp): Sys
    requires Allowed(s, op)
  {
    match op
    case Kmalloc(request) => Malloc(s, request).sys
    case Kfree(ptr) => Free(s, ptr)
  }

  predicate Legal(s: Sys, ops: seq<HeapOp>)
    decreases |ops|
  {
    ops != [] ==> Allowed(s, ops[0]) && Legal(Next(s, ops[0]), ops[1..])
  }

  function Run(s: Sys, ops: seq<HeapOp>): Sys
    requires Legal(s, ops)
    decreases |ops|
  {
    if ops == [] then s else Run(Next(s, ops[0]), ops[1..])
  }

  const INITIAL_PAGES := 16

  /** `heap_init` on a page allocator with these free pages. */
  function Initial(free: PageSet): Sys {
    var empty := Sys([], 0, 0, 0, {}, free);
    if free == {} then empty else Extend(empty, INITIAL_PAGES)
  }

  lemma InitialInv(free: PageSet)
    requires 0 !in free
    ensures Inv(Initial(free))
  {
    var empty := Sys([], 0, 0, 0, {}, free);
    assert Inv(empty);
    if free != {} {
      ExtendKeeps(empty, INITIAL_PAGES);
    }
  }

  /** Tiling, order, alignment, upward growth and the accounts hold in every reachable state. */
  lemma {:induction false} RunKeeps(s: Sys, ops: seq<HeapOp>)
    requires Inv(s) && Legal(s, ops)
    ensures Inv(Run(s, ops))
    decreases |ops|
  {
    if ops != [] {
      match ops[0] {
        case Kmalloc(request) => MallocKeeps(s, request);
        case Kfree(ptr) => FreeKeeps(s, ptr);
      }
      RunKeeps(Next(s, ops[0]), ops[1..]);
    }
  }

  // ---------------------------------------------------------------- live allocations

  /** The allocated blocks. */
  function LiveBlocks(bs: seq<Block>): set<Block> {
    set b | b in bs && !b.free
  }

  lemma LiveConcat(x: seq<Block>, y: seq<Block>)
    ensures LiveBlocks(x + y) == LiveBlocks(x) + LiveBlocks(y)
  {
  }

  lemma LiveReplace(pre: seq<Block>, x: seq<Block>, y: seq<Block>, post: seq<Block>)
    ensures LiveBlocks(pre + x + post) == LiveBlocks(pre) + LiveBlocks(x) + LiveBlocks(post)
    ensures LiveBlocks(pre + y + post) == LiveBlocks(pre) + LiveBlocks(y) + LiveBlocks(post)
  {
    LiveConcat(pre + x, post);
    LiveConcat(pre, x);
    LiveConcat(pre + y, post);
    LiveConcat(pre, y);
  }

  lemma CarveLive(bs: seq<Block>, i: nat, size: nat)
    requires i < |bs| && bs[i].free && size <= bs[i].size
    ensures LiveBlocks(Carve(bs, i, size)) == LiveBlocks(bs) + {Pieces(bs[i], size)[0]}
  {
    var ps := Pieces(bs[i], size);
    LiveReplace(bs[..i], [bs[i]], ps, bs[i + 1..]);
    assert bs == bs[..i] + [bs[i]] + bs[i + 1..];
    assert LiveBlocks([bs[i]]) == {};
    assert LiveBlocks(ps) == {ps[0]} by {
      assert ps[0] in ps;
      forall b | b in ps && !b.free ensures b == ps[0] {}
    }
  }

  lemma MergeLive(bs: seq<Block>, k: int)
    ensures LiveBlocks(TryMerge(bs, k)) == LiveBlocks(bs)
  {
    if Mergeable(bs, k) {
      var one := Block(bs[k].addr, bs[k].size + HEADER + bs[k + 1].size, bs[k].free);
      LiveReplace(bs[..k], [bs[k], bs[k + 1]], [one], bs[k + 2..]);
      assert bs == bs[..k] + [bs[k], bs[k + 1]] + bs[k + 2..];
      assert LiveBlocks([one]) == {} && LiveBlocks([bs[k], bs[k + 1]]) == {};
    }
  }

  /** `b` is the one block that the allocation added to the live ones. */
  predicate Adds(s: Sys, r: Allocated, size: nat, b: Block) {
    && b !in s.blocks && b.addr + HEADER == r.ptr && r.ptr % 8 == 0 && !b.free
    && size <= b.size < size + 32
    && LiveBlocks(r.sys.blocks) == LiveBlocks(s.blocks) + {b}
  }

  /** Nothing changes hands, or exactly one block becomes live. */
  ghost predicate AddsAtMostOne(s: Sys, r: Allocated, size: nat) {
    if r.ptr == 0 then LiveBlocks(r.sys.blocks) == LiveBlocks(s.blocks)
    else exists b :: Adds(s, r, size, b)
  }

  /** An allocation adds exactly one live block and leaves every other where and as it was.
      The new one is 8-aligned, was not live, and is less than 32 bytes larger than the
      aligned request. */
  lemma MallocResult(s: Sys, request: U32)
    requires Inv(s)
    ensures AddsAtMostOne(s, Malloc(s, request), AlignUp(request))
  {
    if request != 0 {
      if Fit(s.blocks, AlignUp(request)) < |s.blocks| {
        MallocInPlace(s, request);
      } else if s.free != {} {
        MallocGrown(s, request);
      }
    }
  }

  lemma MallocInPlace(s: Sys, request: U32)
    requires Inv(s) && request != 0 && Fit(s.blocks, AlignUp(request)) < |s.blocks|
    ensures AddsAtMostOne(s, Malloc(s, request), AlignUp(request))
  {
    var size := AlignUp(request);
    var i := Fit(s.blocks, size);
    BlockInPages(s, i);
    TakeBlockAdds(s, i, size, false);
  }

  lemma MallocGrown(s: Sys, request: U32)
    requires Inv(s) && request != 0 && Fit(s.blocks, AlignUp(request)) == |s.blocks| && s.free != {}
    ensures AddsAtMostOne(s, Malloc(s, request), AlignUp(request))
  {
    var size, i := AlignUp(request), |s.blocks|;
    var t := Extend(s, NeedPages(size));
    ExtendShape(s, NeedPages(size));
    LiveAppendFree(s.blocks, t.blocks[i]);
    if t.blocks[i].size >= size {
      BlockInPages(t, i);
      GrownResult(s, t, size);
      assert Adds(s, TakeBlock(t, i, size, true), size, Pieces(t.blocks[i], size)[0]);
    }
  }

  lemma ExtendShape(s: Sys, pages: nat)
    requires Inv(s) && s.free != {}
    ensures var t := Extend(s, pages);
            Inv(t) && |t.blocks| == |s.blocks| + 1 && t.blocks == s.blocks + [t.blocks[|s.blocks|]] && t.blocks[|s.blocks|].free
  {
    ExtendKeeps(s, pages);
  }

  lemma GrownResult(s: Sys, t: Sys, size: U32)
    requires Ordered(t.blocks) && Aligned(t.blocks) && |t.blocks| == |s.blocks| + 1 && size % 8 == 0
    requires var b := t.blocks[|s.blocks|]; t.blocks == s.blocks + [b] && b.free && b.size >= size && b.addr > 0
    ensures Adds(s, TakeBlock(t, |s.blocks|, size, true), size, Pieces(t.blocks[|s.blocks|], size)[0])
  {
    var i := |s.blocks|;
    LiveAppendFree(s.blocks, t.blocks[i]);
    TakeBlockAdds(t, i, size, true);
    AddsAcross(s, t, TakeBlock(t, i, size, true), size, Pieces(t.blocks[i], size)[0]);
  }

  lemma LiveAppendFree(bs: seq<Block>, b: Block)
    requires b.free
    ensures LiveBlocks(bs + [b]) == LiveBlocks(bs)
  {
    LiveConcat(bs, [b]);
  }

  lemma AddsAcross(s: Sys, t: Sys, r: Allocated, size: nat, b: Block)
    requires Adds(t, r, size, b) && s.blocks <= t.blocks && LiveBlocks(s.blocks) == LiveBlocks(t.blocks)
    ensures Adds(s, r, size, b)
  {
    forall k | 0 <= k < |s.blocks| ensures s.blocks[k] != b {
      assert s.blocks[k] == t.blocks[k];
    }
  }

  lemma TakeBlockAdds(s: Sys, i: nat, size: nat, grew: bool)
    requires Ordered(s.blocks) && Aligned(s.blocks)
    requires i < |s.blocks| && s.blocks[i].free && s.blocks[i].addr > 0 && size <= s.blocks[i].size && size % 8 == 0
    ensures Adds(s, TakeBlock(s, i, size, grew), size, Pieces(s.blocks[i], size)[0])
  {
    CarveLive(s.blocks, i, size);
    var b := Pieces(s.blocks[i], size)[0];
    forall j | 0 <= j < |s.blocks| ensures s.blocks[j] != b {
      SameAddress(s.blocks, i, j);
    }
  }

  lemma SameAddress(bs: seq<Block>, i: nat, j: nat)
    requires Ordered(bs) && i < |bs| && j < |bs|
    ensures bs[i].addr == bs[j].addr ==> i == j
  {
  }

  /** The block whose payload starts at a live pointer. */
  function BlockAt(s: Sys, ptr: nat): Block
    requires Live(s, ptr)
  {
    s.blocks[IndexOf(s.blocks, ptr)]
  }

  lemma FoundAt(s: Sys, b: Block)
    requires Ordered(s.blocks) && b in LiveBlocks(s.blocks)
    ensures Live(s, b.addr + HEADER) && BlockAt(s, b.addr + HEADER) == b
  {
    var i := IndexOf(s.blocks, b.addr + HEADER);
    var k :| 0 <= k < |s.blocks| && s.blocks[k] == b;
    SameAddress(s.blocks, i, k);
  }

  /** The block that a successful allocation returns holds what was asked for if and only if the
      request is at most 0xFFFFFFF8. */
  lemma EnoughIffNoWrap(s: Sys, request: U32)
    requires Inv(s) && request > 0 && Malloc(s, request).ptr != 0
    ensures var r := Malloc(s, request);
            Live(r.sys, r.ptr) && (BlockAt(r.sys, r.ptr).size >= request <==> request <= 0xFFFF_FFF8)
  {
    var r := Malloc(s, request);
    MallocResult(s, request);
    MallocKeeps(s, request);
    var b :| Adds(s, r, AlignUp(request), b);
    FoundAt(r.sys, b);
  }

  /** The failing input: right after initialisation a request of 0xFFFFFFFF bytes succeeds with a
      block of none. */
  lemma WrappedRequest(free: PageSet)
    requires 0 !in free && free != {}
    ensures var r := Malloc(Initial(free), 0xFFFF_FFFF);
            r.ptr != 0 && Live(r.sys, r.ptr) && BlockAt(r.sys, r.ptr).size == 0
  {
    var s := Initial(free);
    assert |s.blocks| == 1 && s.blocks[0].free && s.blocks[0].size >= PAGE_SIZE - HEADER;
    assert Fit(s.blocks, 0) == 0;
    var r := Malloc(s, 0xFFFF_FFFF);
    assert r == TakeBlock(s, 0, 0, false);
    assert r.sys.blocks[0] == Block(s.blocks[0].addr, 0, false);
    assert IndexOf(r.sys.blocks, r.ptr) == 0;
  }

  /** Freeing removes exactly the freed block from the live ones. */
  lemma FreeResult(s: Sys, ptr: nat)
    requires Ordered(s.blocks) && ptr != 0 && Live(s, ptr)
    ensures var b := s.blocks[IndexOf(s.blocks, ptr)];
            LiveBlocks(Free(s, ptr).blocks) == LiveBlocks(s.blocks) - {b}
  {
    var i := IndexOf(s.blocks, ptr);
    SetFreeLive(s.blocks, i);
    var one := s.blocks[i := s.blocks[i].(free := true)];
    MergeLive(one, i);
    MergeLive(TryMerge(one, i), i as int - 1);
  }

  lemma SetFreeLive(bs: seq<Block>, i: nat)
    requires Ordered(bs) && i < |bs| && !bs[i].free
    ensures LiveBlocks(bs[i := bs[i].(free := true)]) == LiveBlocks(bs) - {bs[i]}
  {
    var after := bs[i := bs[i].(free := true)];
    forall b ensures b in LiveBlocks(after) <==> b in LiveBlocks(bs) && b != bs[i] {
      if b in LiveBlocks(after) {
        var k :| 0 <= k < |after| && after[k] == b;
        assert b == bs[k];
        SameAddress(bs, i, k);
      }
      if b in LiveBlocks(bs) && b != bs[i] {
        var k :| 0 <= k < |bs| && bs[k] == b;
        assert after[k] == b;
      }
    }
  }

  /** Payloads of different live blocks never overlap. */
  lemma LiveDisjoint(s: Sys, b: Block, c: Block)
    requires Inv(s) && b in LiveBlocks(s.blocks) && c in LiveBlocks(s.blocks) && b != c
    ensures End(b) <= c.addr || End(c) <= b.addr
  {
    var i :| 0 <= i < |s.blocks| && s.blocks[i] == b;
    var j :| 0 <= j < |s.blocks| && s.blocks[j] == c;
  }

  // ---------------------------------------------------------------- taking a block whole

  predicate NoneFree(bs: seq<Block>) {
    forall k :: 0 <= k < |bs| ==> !bs[k].free
  }

  predicate Whole(size: nat) {
    0 < size <= 0xFFFF_FFF8 && size % 8 == 0
  }

  /** Taking a block whole marks it and changes nothing else. */
  lemma CarveLast(pre: seq<Block>, b: Block)
    requires NoneFree(pre) && b.free
    ensures Fit(pre, b.size) == |pre| == Fit(pre + [b], b.size)
    ensures Pieces(b, b.size) == [b.(free := false)] && Carve(pre + [b], |pre|, b.size) == pre + [b.(free := false)]
  {
    assert (pre + [b])[|pre|] == b;
  }

  /** Allocating exactly the last block, the only free one. */
  lemma TakeWhole(s: Sys, pre: seq<Block>, b: Block)
    requires s.blocks == pre + [b] && NoneFree(pre) && b.free && Whole(b.size)
    ensures Malloc(s, b.size)
         == Allocated(s.(blocks := pre + [b.(free := false)], used := Wrap32(s.used + b.size),
                         freeBytes := Wrap32(s.freeBytes - b.size)), b.addr + HEADER, false)
  {
    AlignedAlready(b.size);
    CarveLast(pre, b);
    assert Malloc(s, b.size) == TakeBlock(s, |pre|, b.size, false);
  }

  lemma AlignedAlready(n: U32)
    requires Whole(n)
    ensures AlignUp(n) == n
  {
  }
}
