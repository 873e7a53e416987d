/** Full coalescing, and what the byte counters really count. */
module Coalescing {
  import opened Words
  import opened Pages
  import opened Blocks
  import opened HeapModel
  import opened HeapTheorems

  // ---------------------------------------------------------------- pairs

  predicate PairOk(bs: seq<Block>, k: int) {
    0 <= k < |bs| - 1 ==> !(bs[k].free && bs[k + 1].free && Touch(bs[k], bs[k + 1]))
  }

  /** Coalesced except possibly at the pairs `x` and `y`. */
  predicate CoalescedBut(bs: seq<Block>, x: int, y: int) {
    forall k :: 0 <= k < |bs| - 1 && k != x && k != y ==> PairOk(bs, k)
  }

  lemma CoalescedIs(bs: seq<Block>)
    ensures Coalesced(bs) <==> CoalescedBut(bs, -1, -1)
  {
    if Coalesced(bs) {
      forall k | 0 <= k < |bs| - 1 ensures PairOk(bs, k) {}
    }
    if CoalescedBut(bs, -1, -1) {
      forall k | 0 <= k < |bs| - 1 ensures !(bs[k].free && bs[k + 1].free && Touch(bs[k], bs[k + 1])) {
        assert PairOk(bs, k);
      }
    }
  }

  /** Merging repairs the pair it looks at and breaks no other. */
  lemma TryMergeRepairs(bs: seq<Block>, k: int, x: int)
    requires CoalescedBut(bs, k, x) && x < k
    ensures CoalescedBut(TryMerge(bs, k), x, x)
  {
    if Mergeable(bs, k) {
      var after := Merge(bs, k);
      forall j | 0 <= j < |after| - 1 && j != x ensures PairOk(after, j) {
        if j < k {
          assert after[j] == bs[j] && after[j + 1].addr == bs[j + 1].addr && after[j + 1].free == bs[j + 1].free;
          assert PairOk(bs, j);
        } else {
          assert after[j + 1] == bs[j + 2] && End(after[j]) == End(bs[j + 1]) && after[j].free == bs[j + 1].free;
          assert PairOk(bs, j + 1);
        }
      }
    } else {
      forall j | 0 <= j < |bs| - 1 && j != x ensures PairOk(bs, j) {}
    }
  }

  /** Freeing a block of a coalesced list leaves a coalesced list. */
  lemma ReleaseCoalesced(bs: seq<Block>, i: nat)
    requires i < |bs| && !bs[i].free && Coalesced(bs)
    ensures Coalesced(Release(bs, i))
  {
    var one := bs[i := bs[i].(free := true)];
    forall k | 0 <= k < |one| - 1 && k != i && k != i - 1 ensures PairOk(one, k) {
      assert one[k] == bs[k] && one[k + 1] == bs[k + 1];
    }
    TryMergeRepairs(one, i, i as int - 1);
    var two := TryMerge(one, i);
    TryMergeRepairs(two, i as int - 1, -2);
    var three := TryMerge(two, i as int - 1);
    CoalescedIs(three);
  }

  /** Allocating from a block whose left neighbour may be free and touching. */
  lemma CarveCoalesced(bs: seq<Block>, i: nat, size: nat)
    requires i < |bs| && bs[i].free && size <= bs[i].size && CoalescedBut(bs, i as int - 1, -1)
    ensures Coalesced(Carve(bs, i, size))
  {
    var ps, after := Pieces(bs[i], size), Carve(bs, i, size);
    var n := |ps|;
    assert forall k :: 0 <= k < i ==> after[k] == bs[k];
    assert forall k :: i <= k < i + n ==> after[k] == ps[k - i];
    assert forall k :: i + n <= k < |after| ==> after[k] == bs[k - n + 1];
    forall k | 0 <= k < |after| - 1 ensures PairOk(after, k) {
      if k + 1 < i {
        assert PairOk(bs, k);
      } else if k >= i + n {
        assert PairOk(bs, k - n + 1);
      } else if k == i + n - 1 {
        assert PairOk(bs, i);
        assert End(after[k]) == End(bs[i]);
      } else {
        assert !after[i].free;
      }
    }
    CoalescedIs(after);
  }

  // ---------------------------------------------------------------- steps and runs

  /** The allocation will grow the heap and still fail: nothing fits, and the consecutive free
      pages from the lowest on are too few. */
  predicate GrowsInVain(s: Sys, request: U32) {
    var size := AlignUp(request);
    && request != 0 && Fit(s.blocks, size) == |s.blocks| && s.free != {}
    && PAGE_SIZE * RunLength(s.free, Lowest(s.free), if NeedPages(size) < 1 then 1 else NeedPages(size)) < HEADER + size
  }

  lemma GrowsInVainIff(s: Sys, request: U32)
    ensures var r := Malloc(s, request); GrowsInVain(s, request) <==> r.grew && r.ptr == 0
  {
  }

  /** The allocation will put a free block right behind a free one. */
  predicate LeavesPair(s: Sys, request: U32) {
    && GrowsInVain(s, request) && s.blocks != []
    && s.blocks[|s.blocks| - 1].free && End(s.blocks[|s.blocks| - 1]) == PAGE_SIZE * Lowest(s.free)
  }

  /** An allocation keeps the list coalesced if and only if it does not grow in vain behind a
      free block that reaches up to the lowest free page. */
  lemma MallocCoalesced(s: Sys, request: U32)
    requires Inv(s) && Coalesced(s.blocks)
    ensures Coalesced(Malloc(s, request).sys.blocks) <==> !LeavesPair(s, request)
  {
    if request != 0 {
      if Fit(s.blocks, AlignUp(request)) < |s.blocks| {
        FittingCoalesced(s, request);
      } else if s.free != {} {
        GrowingCoalesced(s, request);
      }
    }
  }

  lemma FittingCoalesced(s: Sys, request: U32)
    requires Coalesced(s.blocks) && request != 0 && Fit(s.blocks, AlignUp(request)) < |s.blocks|
    ensures Coalesced(Malloc(s, request).sys.blocks)
  {
    var size := AlignUp(request);
    var i := Fit(s.blocks, size);
    CoalescedIs(s.blocks);
    assert CoalescedBut(s.blocks, i as int - 1, -1);
    CarveCoalesced(s.blocks, i, size);
  }

  lemma GrowingCoalesced(s: Sys, request: U32)
    requires Inv(s) && Coalesced(s.blocks) && request != 0
    requires Fit(s.blocks, AlignUp(request)) == |s.blocks| && s.free != {}
    ensures Coalesced(Malloc(s, request).sys.blocks) <==> !LeavesPair(s, request)
  {
    var size, n := AlignUp(request), |s.blocks|;
    var t := Extend(s, NeedPages(size));
    ExtendShape(s, NeedPages(size));
    GrowsInVainIff(s, request);
    assert t.blocks[n].addr == PAGE_SIZE * Lowest(s.free);
    GrownCoalesced(s, t, size);
  }

  lemma GrownCoalesced(s: Sys, t: Sys, size: U32)
    requires Coalesced(s.blocks) && Inv(t) && |t.blocks| == |s.blocks| + 1
    requires var b := t.blocks[|s.blocks|]; t.blocks == s.blocks + [b] && b.free
    ensures var i := |s.blocks|;
            if t.blocks[i].size < size
            then Coalesced(t.blocks) <==> i == 0 || !s.blocks[i - 1].free || !Touch(s.blocks[i - 1], t.blocks[i])
            else Coalesced(TakeBlock(t, i, size, true).sys.blocks)
  {
    var i := |s.blocks|;
    AppendCoalesced(s.blocks, t.blocks[i]);
    if t.blocks[i].size >= size {
      CarveCoalesced(t.blocks, i, size);
    }
  }

  lemma AppendCoalesced(bs: seq<Block>, b: Block)
    requires Coalesced(bs) && b.free
    ensures CoalescedBut(bs + [b], |bs| - 1, -1)
    ensures Coalesced(bs + [b]) <==> |bs| == 0 || !bs[|bs| - 1].free || !Touch(bs[|bs| - 1], b)
  {
    var after := bs + [b];
    CoalescedIs(bs);
    forall k | 0 <= k < |after| - 1 && k != |bs| - 1 ensures PairOk(after, k) {
      assert PairOk(bs, k) && after[k] == bs[k] && after[k + 1] == bs[k + 1];
    }
    CoalescedIs(after);
    if |bs| > 0 {
      assert PairOk(after, |bs| - 1) <==> !bs[|bs| - 1].free || !Touch(bs[|bs| - 1], b);
    }
  }

  /** No allocation of the run leaves a touching pair of free blocks. */
  predicate NeverLeavesPair(s: Sys, ops: seq<HeapOp>)
    requires Legal(s, ops)
    decreases |ops|
  {
    ops != [] ==>
      && (ops[0].Kmalloc? ==> !LeavesPair(s, ops[0].request))
      && NeverLeavesPair(Next(s, ops[0]), ops[1..])
  }

  /** So the list stays coalesced over every run in which no allocation grows in vain behind a
      free block. */
  lemma {:induction false} RunCoalesced(s: Sys, ops: seq<HeapOp>)
    requires Inv(s) && Coalesced(s.blocks) && Legal(s, ops) && NeverLeavesPair(s, ops)
    ensures Inv(Run(s, ops)) && Coalesced(Run(s, ops).blocks)
    decreases |ops|
  {
    if ops != [] {
      match ops[0] {
        case Kmalloc(request) =>
          MallocKeeps(s, request);
          MallocCoalesced(s, request);
        case Kfree(ptr) =>
          FreeKeeps(s, ptr);
          if ptr != 0 { ReleaseCoalesced(s.blocks, IndexOf(s.blocks, ptr)); }
      }
      RunCoalesced(Next(s, ops[0]), ops[1..]);
    }
  }

  // ---------------------------------------------------------------- maximal runs

  /** The block is a maximal run of consecutive heap pages. */
  ghost predicate MaximalRun(pages: PageSet, b: Block) {
    && b.addr % PAGE_SIZE == 0 && End(b) % PAGE_SIZE == 0
    && (forall p :: b.addr / PAGE_SIZE <= p < End(b) / PAGE_SIZE ==> p in pages)
    && b.addr / PAGE_SIZE - 1 !in pages && End(b) / PAGE_SIZE !in pages
  }

  /** Only list neighbours can touch. */
  lemma TouchOnlyNext(bs: seq<Block>, i: nat, j: nat)
    requires Ordered(bs) && i < |bs| && j < |bs| && j != i + 1
    ensures !Touch(bs[i], bs[j])
  {
    if i + 1 < j {
      assert End(bs[i]) <= bs[i + 1].addr && End(bs[i + 1]) <= bs[j].addr;
    } else if j < i {
      assert End(bs[j]) <= bs[i].addr;
    }
  }

  predicate AllFree(bs: seq<Block>) {
    forall k :: 0 <= k < |bs| ==> bs[k].free
  }

  lemma NoTouch(bs: seq<Block>, i: nat, j: nat)
    requires Ordered(bs) && Coalesced(bs) && AllFree(bs) && i < |bs| && j < |bs|
    ensures !Touch(bs[i], bs[j])
  {
    if j != i + 1 {
      TouchOnlyNext(bs, i, j);
    }
  }

  lemma NotBefore(bs: seq<Block>, i: nat)
    requires Ordered(bs) && Coalesced(bs) && AllFree(bs) && i < |bs|
    ensures !Covered(bs, bs[i].addr as int - 1)
  {
    forall j | 0 <= j < |bs| ensures !Within(bs[j], bs[i].addr as int - 1) {
      NoTouch(bs, j, i);
      assert j < i ==> End(bs[j]) <= bs[i].addr;
      assert i < j ==> End(bs[i]) <= bs[j].addr;
    }
  }

  lemma NotAfter(bs: seq<Block>, i: nat)
    requires Ordered(bs) && Coalesced(bs) && AllFree(bs) && i < |bs|
    ensures !Covered(bs, End(bs[i]))
  {
    forall j | 0 <= j < |bs| ensures !Within(bs[j], End(bs[i])) {
      NoTouch(bs, i, j);
      assert j < i ==> End(bs[j]) <= bs[i].addr;
      assert i < j ==> End(bs[i]) <= bs[j].addr;
    }
  }

  /** When nothing is allocated, the blocks of a coalesced heap are exactly the maximal runs of
      consecutive heap pages: each block is one, and every heap page lies in one block. */
  lemma AllFreeIsMaximal(s: Sys)
    requires Inv(s) && Coalesced(s.blocks) && LiveBlocks(s.blocks) == {}
    ensures forall i :: 0 <= i < |s.blocks| ==> MaximalRun(s.pages, s.blocks[i])
    ensures forall p :: p in s.pages ==> Covered(s.blocks, p * PAGE_SIZE)
  {
    var bs := s.blocks;
    forall k | 0 <= k < |bs| ensures bs[k].free {
      assert bs[k] !in LiveBlocks(bs);
    }
    forall i | 0 <= i < |bs| ensures MaximalRun(s.pages, bs[i]) {
      NotBefore(bs, i);
      NotAfter(bs, i);
      BlockIsMaximal(s, i);
    }
    forall p | p in s.pages ensures Covered(bs, p * PAGE_SIZE) {
      assert p * PAGE_SIZE / PAGE_SIZE == p;
    }
  }

  lemma BlockIsMaximal(s: Sys, i: nat)
    requires Tiles(s.blocks, s.pages) && i < |s.blocks|
    requires !Covered(s.blocks, s.blocks[i].addr as int - 1) && !Covered(s.blocks, End(s.blocks[i]))
    ensures MaximalRun(s.pages, s.blocks[i])
  {
    var b := s.blocks[i];
    BlockInPages(s, i);
    assert (b.addr as int - 1) / PAGE_SIZE !in s.pages && End(b) / PAGE_SIZE !in s.pages;
    forall p | b.addr / PAGE_SIZE <= p < End(b) / PAGE_SIZE ensures p in s.pages {
      var a := if p == b.addr / PAGE_SIZE then b.addr else p * PAGE_SIZE;
      assert Within(b, a) && Covered(s.blocks, a) && a / PAGE_SIZE == p;
    }
  }

  function Frees(ptrs: seq<nat>): seq<HeapOp> {
    seq(|ptrs|, i requires 0 <= i < |ptrs| => Kfree(ptrs[i]))
  }

  /** Nothing is allocated, and the blocks are the maximal runs of `pages`. */
  ghost predicate Emptied(t: Sys, pages: PageSet) {
    && LiveBlocks(t.blocks) == {} && t.pages == pages
    && (forall i :: 0 <= i < |t.blocks| ==> MaximalRun(pages, t.blocks[i]))
    && (forall p :: p in pages ==> Covered(t.blocks, p * PAGE_SIZE))
  }

  /** Freeing every live allocation, in any order, leaves exactly one block per maximal run. */
  lemma {:induction false} FreeAll(s: Sys, ptrs: seq<nat>)
    requires Inv(s) && Coalesced(s.blocks) && Lists(s, ptrs)
    ensures Legal(s, Frees(ptrs)) && Emptied(Run(s, Frees(ptrs)), s.pages)
    decreases |ptrs|
  {
    if ptrs == [] {
      NoneLive(s);
      AllFreeIsMaximal(s);
    } else {
      FreeOne(s, ptrs);
      FreeAll(Free(s, ptrs[0]), ptrs[1..]);
      RunFirst(s, ptrs);
    }
  }

  lemma RunFirst(s: Sys, ptrs: seq<nat>)
    requires ptrs != [] && Live(s, ptrs[0]) && Legal(Free(s, ptrs[0]), Frees(ptrs[1..]))
    ensures Legal(s, Frees(ptrs)) && Run(s, Frees(ptrs)) == Run(Free(s, ptrs[0]), Frees(ptrs[1..]))
  {
    assert Frees(ptrs)[1..] == Frees(ptrs[1..]);
    assert Next(s, Frees(ptrs)[0]) == Free(s, ptrs[0]);
  }

  /** `ptrs` lists every live pointer once. */
  ghost predicate Lists(s: Sys, ptrs: seq<nat>) {
    && (forall i, j :: 0 <= i < j < |ptrs| ==> ptrs[i] != ptrs[j])
    && (forall ptr: nat :: ptr in ptrs <==> ptr != 0 && Live(s, ptr))
  }

  lemma FreeOne(s: Sys, ptrs: seq<nat>)
    requires Inv(s) && Coalesced(s.blocks) && Lists(s, ptrs) && ptrs != []
    ensures ptrs[0] != 0 && Live(s, ptrs[0])
    ensures var t := Free(s, ptrs[0]); Inv(t) && Coalesced(t.blocks) && Lists(t, ptrs[1..])
  {
    var p, rest := ptrs[0], ptrs[1..];
    assert p in ptrs;
    var t := Free(s, p);
    FreeKeeps(s, p);
    ReleaseCoalesced(s.blocks, IndexOf(s.blocks, p));
    forall ptr: nat ensures ptr in rest <==> ptr != 0 && Live(t, ptr) {
      LiveAfterFree(s, p, ptr);
      assert ptr in ptrs <==> ptr == p || ptr in rest;
    }
  }

  /** Some block of the set has its payload at `ptr`. */
  predicate HasPayload(live: set<Block>, ptr: nat) {
    exists b :: b in live && b.addr + HEADER == ptr
  }

  lemma LiveMeans(s: Sys, ptr: nat)
    requires Ordered(s.blocks)
    ensures Live(s, ptr) <==> HasPayload(LiveBlocks(s.blocks), ptr)
  {
    var i := IndexOf(s.blocks, ptr);
    if Live(s, ptr) {
      assert s.blocks[i] in LiveBlocks(s.blocks);
    }
    if HasPayload(LiveBlocks(s.blocks), ptr) {
      var b :| b in LiveBlocks(s.blocks) && b.addr + HEADER == ptr;
      var k :| 0 <= k < |s.blocks| && s.blocks[k] == b;
      SameAddress(s.blocks, i, k);
    }
  }

  lemma PayloadGone(live: set<Block>, b: Block, ptr: nat)
    requires forall c :: c in live && c.addr == b.addr ==> c == b
    ensures HasPayload(live - {b}, ptr) <==> HasPayload(live, ptr) && ptr != b.addr + HEADER
  {
    if HasPayload(live, ptr) && ptr != b.addr + HEADER {
      var c :| c in live && c.addr + HEADER == ptr;
      assert c in live - {b};
    }
  }

  lemma NoneLive(s: Sys)
    requires Inv(s) && forall ptr: nat :: !(ptr != 0 && Live(s, ptr))
    ensures LiveBlocks(s.blocks) == {}
  {
    forall b | b in s.blocks ensures b.free {
      LiveMeans(s, b.addr + HEADER);
      assert b !in LiveBlocks(s.blocks);
    }
  }

  lemma LiveAfterFree(s: Sys, freed: nat, ptr: nat)
    requires Ordered(s.blocks) && freed != 0 && Live(s, freed) && Ordered(Free(s, freed).blocks)
    ensures Live(Free(s, freed), ptr) <==> Live(s, ptr) && ptr != freed
  {
    var i := IndexOf(s.blocks, freed);
    LiveMeans(s, ptr);
    LiveMeans(Free(s, freed), ptr);
    FreeResult(s, freed);
    AloneAtAddress(s.blocks, i);
    PayloadGone(LiveBlocks(s.blocks), s.blocks[i], ptr);
  }

  lemma AloneAtAddress(bs: seq<Block>, i: nat)
    requires Ordered(bs) && i < |bs|
    ensures forall c :: c in LiveBlocks(bs) && c.addr == bs[i].addr ==> c == bs[i]
  {
    forall c | c in LiveBlocks(bs) && c.addr == bs[i].addr ensures c == bs[i] {
      var k :| 0 <= k < |bs| && bs[k] == c;
      SameAddress(bs, i, k);
    }
  }

  // ---------------------------------------------------------------- the counters

  /** `freeBytes` is the true free payload exactly when splits and merges balance. */
  lemma CounterExact(s: Sys)
    requires Inv(s)
    ensures s.freeBytes == Avail(s.blocks) <==> |s.blocks| == s.growths
  {
    PagesBound(s.pages);
    var d := HEADER * (|s.blocks| - s.growths);
    assert HEADER * |s.blocks| <= PAGE_SIZE * MAX_PAGES && Avail(s.blocks) <= PAGE_SIZE * MAX_PAGES;
    assert -0x1000_0000 < d < 0x1000_0000;
  }

  /** The two counters together always give the payload of the growths. */
  lemma CountersTogether(s: Sys)
    requires Inv(s)
    ensures Wrap32(s.freeBytes + s.used) == Wrap32(PAGE_SIZE * |s.pages| - HEADER * s.growths)
  {
    WrapAdd(Avail(s.blocks) + HEADER * (|s.blocks| - s.growths), s.used);
  }

  /** The free counter wraps below zero when two growths whose blocks have merged into one are
      allocated as a whole. */
  lemma CounterWraps(s: Sys, b: Block, request: U32)
    requires Inv(s) && s.blocks == [b] && b.free && s.growths == 2 && 0 < request == b.size <= 0xFFFF_FFF8
    ensures var t := Malloc(s, request).sys; t.used == b.size && t.freeBytes == 0xFFFF_FFF0
  {
    assert b.size % 8 == 0 by { assert Aligned(s.blocks) && s.blocks[0] == b; }
    TakeWhole(s, [], b);
    SumsOne(b);
    WrapAdd(b.size - HEADER, 0 - b.size as int);
  }
}
