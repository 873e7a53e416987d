/** The heap as the kernel runs it: headers in memory linked by addresses, over the bitmap page
    allocator; every operation is proved against the state machine of `HeapModel`. */
module Heap {
  import opened Words
  import opened Pages
  import opened Pmm
  import opened Blocks
  import opened HeapModel
  import opened HeapTheorems

  /** A block header; addresses are numbers and 0 is null. */
  datatype Header = Header(size: nat, free: bool, next: nat, prev: nat)

  type Memory = map<nat, Header>

  function AddrAt(bs: seq<Block>, i: int): nat {
    if 0 <= i < |bs| then bs[i].addr else 0
  }

  function HeaderOf(bs: seq<Block>, i: nat): Header
    requires i < |bs|
  {
    Header(bs[i].size, bs[i].free, AddrAt(bs, i + 1), AddrAt(bs, i - 1))
  }

  predicate HeaderOk(mem: Memory, bs: seq<Block>, i: nat)
    requires i < |bs|
  {
    bs[i].addr in mem && mem[bs[i].addr] == HeaderOf(bs, i)
  }

  /** The headers in memory are the list: sizes, flags, and both directions of links. */
  ghost predicate Linked(mem: Memory, head: nat, bs: seq<Block>) {
    && head == AddrAt(bs, 0)
    && (forall i :: 0 <= i < |bs| ==> bs[i].addr > 0)
    && (forall i :: 0 <= i < |bs| ==> HeaderOk(mem, bs, i))
  }

  predicate DistinctAddrs(bs: seq<Block>) {
    forall i, j :: 0 <= i < j < |bs| ==> bs[i].addr != bs[j].addr
  }

  lemma OrderedIsDistinct(bs: seq<Block>)
    requires Ordered(bs)
    ensures DistinctAddrs(bs)
  {
    forall i, j | 0 <= i < j < |bs| ensures bs[i].addr != bs[j].addr {
      assert End(bs[i]) <= bs[j].addr;
    }
  }

  // ---------------------------------------------------------------- list surgery in memory

  /** Appending a block: its own header and the old tail's `next`. */
  function AppendMem(mem: Memory, bs: seq<Block>, b: Block): Memory
    requires bs != [] ==> bs[|bs| - 1].addr in mem
  {
    var m := mem[b.addr := Header(b.size, b.free, 0, 0)];
    if bs == [] then m
    else
      var tail := bs[|bs| - 1].addr;
      var m2 := m[tail := m[tail].(next := b.addr)];
      m2[b.addr := m2[b.addr].(prev := tail)]
  }

  lemma AppendLinked(mem: Memory, head: nat, bs: seq<Block>, b: Block)
    requires Linked(mem, head, bs) && DistinctAddrs(bs + [b]) && b.addr > 0
    ensures bs != [] ==> bs[|bs| - 1].addr in mem
    ensures Linked(AppendMem(mem, bs, b), if bs == [] then b.addr else head, bs + [b])
  {
    var after := bs + [b];
    if bs != [] { assert HeaderOk(mem, bs, |bs| - 1); }
    var m := AppendMem(mem, bs, b);
    forall i | 0 <= i < |after| ensures HeaderOk(m, after, i) {
      if i < |bs| {
        assert HeaderOk(mem, bs, i);
        assert after[i].addr != after[|bs|].addr;
      }
    }
  }

  /** A new size and flag for block `i`. */
  lemma UpdateLinked(mem: Memory, head: nat, bs: seq<Block>, i: nat, size: nat, free: bool)
    requires Linked(mem, head, bs) && DistinctAddrs(bs) && i < |bs|
    ensures bs[i].addr in mem
    ensures var a := bs[i].addr;
            Linked(mem[a := mem[a].(size := size, free := free)], head, bs[i := Block(a, size, free)])
  {
    assert HeaderOk(mem, bs, i);
    var a := bs[i].addr;
    var m, after := mem[a := mem[a].(size := size, free := free)], bs[i := Block(a, size, free)];
    forall k | 0 <= k < |after| ensures HeaderOk(m, after, k) {
      assert HeaderOk(mem, bs, k);
    }
  }

  /** Block `r` linked in behind block `i`: its header, the next block's `prev`, and `next` of
      block `i`. */
  function InsertMem(mem: Memory, bs: seq<Block>, i: nat, r: Block): Memory
    requires i < |bs| && bs[i].addr in mem
  {
    var block := bs[i].addr;
    var next := mem[block].next;
    var m := mem[r.addr := Header(r.size, r.free, next, block)];
    var m2 := if next != 0 && next in m then m[next := m[next].(prev := r.addr)] else m;
    m2[block := m2[block].(next := r.addr)]
  }

  function InsertAfter(bs: seq<Block>, i: nat, r: Block): seq<Block>
    requires i < |bs|
  {
    bs[..i + 1] + [r] + bs[i + 1..]
  }

  lemma InsertLinked(mem: Memory, head: nat, bs: seq<Block>, i: nat, r: Block)
    requires Linked(mem, head, bs) && DistinctAddrs(bs) && i < |bs| && r.addr > 0
    requires forall k :: 0 <= k < |bs| ==> bs[k].addr != r.addr
    ensures bs[i].addr in mem && Linked(InsertMem(mem, bs, i, r), head, InsertAfter(bs, i, r))
  {
    assert HeaderOk(mem, bs, i);
    if i + 1 < |bs| { assert HeaderOk(mem, bs, i + 1); }
    var after, m := InsertAfter(bs, i, r), InsertMem(mem, bs, i, r);
    forall k | 0 <= k < |after| ensures HeaderOk(m, after, k) && after[k].addr > 0 {
      if k <= i {
        assert HeaderOk(mem, bs, k) && after[k] == bs[k];
        assert k < i ==> after[k + 1] == bs[k + 1];
      } else if k > i + 1 {
        assert HeaderOk(mem, bs, k - 1) && after[k] == bs[k - 1];
        assert k + 1 < |after| ==> after[k + 1] == bs[k];
        assert k > i + 2 ==> after[k - 1] == bs[k - 2];
      } else {
        assert after[k] == r;
        assert k + 1 < |after| ==> after[k + 1] == bs[k];
      }
    }
  }

  /** Block `k + 1` unlinked: `next` of block `k` and the follower's `prev`. */
  function RemoveMem(mem: Memory, bs: seq<Block>, k: nat): Memory
    requires k + 1 < |bs| && bs[k].addr in mem && bs[k + 1].addr in mem
  {
    var lower, next := bs[k].addr, mem[bs[k + 1].addr].next;
    var m := mem[lower := mem[lower].(next := next)];
    if next != 0 && next in m then m[next := m[next].(prev := lower)] else m
  }

  function RemoveAfter(bs: seq<Block>, k: nat): seq<Block>
    requires k + 1 < |bs|
  {
    bs[..k + 1] + bs[k + 2..]
  }

  lemma RemoveLinked(mem: Memory, head: nat, bs: seq<Block>, k: nat)
    requires Linked(mem, head, bs) && DistinctAddrs(bs) && k + 1 < |bs|
    ensures bs[k].addr in mem && bs[k + 1].addr in mem
    ensures Linked(RemoveMem(mem, bs, k), head, RemoveAfter(bs, k))
  {
    assert HeaderOk(mem, bs, k) && HeaderOk(mem, bs, k + 1);
    if k + 2 < |bs| { assert HeaderOk(mem, bs, k + 2); }
    var after, m := RemoveAfter(bs, k), RemoveMem(mem, bs, k);
    forall j | 0 <= j < |after| ensures HeaderOk(m, after, j) && after[j].addr > 0 {
      if j <= k {
        assert HeaderOk(mem, bs, j) && after[j] == bs[j];
        assert j < k ==> after[j + 1] == bs[j + 1];
      } else {
        assert HeaderOk(mem, bs, j + 1) && after[j] == bs[j + 1];
        assert j + 1 < |after| ==> after[j + 1] == bs[j + 2];
        assert j > k + 1 ==> after[j - 1] == bs[j];
      }
    }
  }

  // ---------------------------------------------------------------- the operations as surgery

  lemma CarveLinked(mem: Memory, head: nat, bs: seq<Block>, i: nat, size: nat)
    requires Linked(mem, head, bs) && Ordered(bs) && i < |bs| && HEADER + MIN_SPLIT_SIZE + size <= bs[i].size
    ensures var a, r := bs[i].addr, Pieces(bs[i], size)[1];
            && a in mem && a in InsertMem(mem, bs, i, r)
            && var m := InsertMem(mem, bs, i, r);
               Linked(m[a := m[a].(size := size, free := false)], head, Carve(bs, i, size))
  {
    var r := Pieces(bs[i], size)[1];
    OrderedIsDistinct(bs);
    RemainderApart(bs, i, size);
    InsertLinked(mem, head, bs, i, r);
    InsertDistinct(bs, i, r);
    UpdateLinked(InsertMem(mem, bs, i, r), head, InsertAfter(bs, i, r), i, size, false);
    InsertIsCarve(bs, i, size);
  }

  lemma RemainderApart(bs: seq<Block>, i: nat, size: nat)
    requires Ordered(bs) && i < |bs| && HEADER + MIN_SPLIT_SIZE + size <= bs[i].size
    ensures forall k :: 0 <= k < |bs| ==> bs[k].addr != Pieces(bs[i], size)[1].addr
  {
    forall k | 0 <= k < |bs| ensures bs[k].addr != Pieces(bs[i], size)[1].addr {
      assert k < i ==> End(bs[k]) <= bs[i].addr;
      assert i < k ==> End(bs[i]) <= bs[k].addr;
    }
  }

  lemma InsertDistinct(bs: seq<Block>, i: nat, r: Block)
    requires DistinctAddrs(bs) && i < |bs| && forall k :: 0 <= k < |bs| ==> bs[k].addr != r.addr
    ensures DistinctAddrs(InsertAfter(bs, i, r)) && InsertAfter(bs, i, r)[i] == bs[i]
  {
    var mid := InsertAfter(bs, i, r);
    assert forall k :: 0 <= k < |mid| ==> mid[k] == if k <= i then bs[k] else if k == i + 1 then r else bs[k - 1];
  }

  lemma InsertIsCarve(bs: seq<Block>, i: nat, size: nat)
    requires i < |bs| && HEADER + MIN_SPLIT_SIZE + size <= bs[i].size
    ensures InsertAfter(bs, i, Pieces(bs[i], size)[1])[i := Block(bs[i].addr, size, false)] == Carve(bs, i, size)
  {
  }

  lemma MergeLinked(mem: Memory, head: nat, bs: seq<Block>, k: nat)
    requires Linked(mem, head, bs) && Ordered(bs) && k + 1 < |bs|
    ensures var lower, higher := bs[k].addr, bs[k + 1].addr;
            && lower in mem && higher in mem && mem[higher].size == bs[k + 1].size && mem[lower].size == bs[k].size
            && var one := bs[k := Block(lower, bs[k].size + HEADER + bs[k + 1].size, bs[k].free)];
               var m := mem[lower := mem[lower].(size := mem[lower].size + HEADER + mem[higher].size)];
               higher in m && Linked(RemoveMem(m, one, k), head, Merge(bs, k))
  {
    assert HeaderOk(mem, bs, k) && HeaderOk(mem, bs, k + 1);
    OrderedIsDistinct(bs);
    var lower, size := bs[k].addr, bs[k].size + HEADER + bs[k + 1].size;
    UpdateLinked(mem, head, bs, k, size, bs[k].free);
    var one := bs[k := Block(lower, size, bs[k].free)];
    UpdateDistinct(bs, k, size, bs[k].free);
    RemoveLinked(mem[lower := mem[lower].(size := size, free := bs[k].free)], head, one, k);
    RemoveIsMerge(bs, k);
  }

  lemma UpdateDistinct(bs: seq<Block>, k: nat, size: nat, free: bool)
    requires DistinctAddrs(bs) && k < |bs|
    ensures DistinctAddrs(bs[k := Block(bs[k].addr, size, free)])
  {
  }

  lemma RemoveIsMerge(bs: seq<Block>, k: nat)
    requires k + 1 < |bs|
    ensures RemoveAfter(bs[k := Block(bs[k].addr, bs[k].size + HEADER + bs[k + 1].size, bs[k].free)], k) == Merge(bs, k)
  {
  }

  class KernelHeap {
    const pmm: PageAllocator
    var mem: Memory
    var heapHead: nat
    var usedBytes: U32
    var freeBytes: U32
    /** The state machine this heap is in. */
    ghost var sys: Sys

    /** Memory, counters and allocator agree with the state machine. */
    ghost predicate Represents(s: Sys)
      reads this, pmm, pmm.bitmap
    {
      && pmm.Valid() && pmm.free == s.free
      && usedBytes == s.used && freeBytes == s.freeBytes
      && Linked(mem, heapHead, s.blocks)
    }

    ghost predicate Valid()
      reads this, pmm, pmm.bitmap
    {
      Represents(sys) && Inv(sys)
    }

    constructor (pmm: PageAllocator)
      ensures this.pmm == pmm
    {
      this.pmm := pmm;
      mem, heapHead, usedBytes, freeBytes := map[], 0, 0, 0;
      sys := Sys([], 0, 0, 0, {}, {});
    }

    method GiveBack(page: U32, ghost rest: PageSet, ghost low: nat)
      requires pmm.Valid() && low in rest && page / PAGE_SIZE == low && pmm.free == rest - {low}
      modifies pmm, pmm.bitmap
      ensures pmm.Valid() && pmm.free == rest
    {
      pmm.FreePage(page);
      PutBack(rest, low);
    }

    /** One more page for a run of `got` pages from `first`; one that is not the expected next
        goes straight back. */
    method NextPage(expectedNext: nat, ghost free: PageSet, ghost first: nat, ghost got: nat) returns (more: bool)
      requires pmm.Valid() && Taken(free, first, got) && pmm.free == free - PageRun(first, got)
      requires expectedNext == PAGE_SIZE * (first + got)
      modifies pmm, pmm.bitmap
      ensures pmm.Valid() && (more <==> first + got in free)
      ensures if more then Taken(free, first, got + 1) && pmm.free == free - PageRun(first, got + 1)
              else pmm.free == free - PageRun(first, got)
    {
      RunGrows(free, first, got);
      ghost var rest := pmm.free;
      ghost var low := Lowest(rest);
      var page := pmm.AllocPage();
      if page == 0 {
        return false;
      }
      if page != expectedNext {
        assert page / PAGE_SIZE == low && low in rest;
        assert low != first + got;
        GiveBack(page, rest, low);
        return false;
      }
      assert low == first + got;
      return true;
    }

    /** The first page of a growth; `ok` is false when there is none. */
    method FirstPage() returns (ok: bool, first: nat)
      requires pmm.Valid() && 0 !in pmm.free
      modifies pmm, pmm.bitmap
      ensures pmm.Valid() && (ok <==> old(pmm.free) != {})
      ensures if ok then Taken(old(pmm.free), first, 1) && pmm.free == old(pmm.free) - PageRun(first, 1)
              else pmm.free == old(pmm.free)
    {
      ghost var low := Lowest(pmm.free);
      var addr := pmm.AllocPage();
      if addr == 0 {
        return false, 0;
      }
      first := addr / PAGE_SIZE;
      assert first == low;
      RunOne(first);
      return true, first;
    }

    /** The page loop of `heap_extend`, after its first page. */
    method GrowRun(pages: nat, first: nat, ghost free: PageSet) returns (got: nat)
      requires pmm.Valid() && Taken(free, first, 1) && pmm.free == free - PageRun(first, 1)
      modifies pmm, pmm.bitmap
      ensures pmm.Valid() && Full(free, first, got, pages) && pmm.free == free - PageRun(first, got)
    {
      got := 1;
      var more := true;
      while got < pages && more
        invariant pmm.Valid() && Taken(free, first, got) && pmm.free == free - PageRun(first, got)
        invariant (!more ==> first + got !in free) && (got <= pages || got == 1)
        decreases pages - got, more
      {
        more := NextPage(PAGE_SIZE * (first + got), free, first, got);
        if more {
          got := got + 1;
        }
      }
    }

    /** Pages from the allocator for as long as they are consecutive. `got` is 0 when there is no
        page at all. */
    method TakePages(pages: nat) returns (first: nat, got: nat)
      requires pmm.Valid() && 0 !in pmm.free
      modifies pmm, pmm.bitmap
      ensures pmm.Valid()
      ensures old(pmm.free) == {} ==> got == 0 && pmm.free == old(pmm.free)
      ensures old(pmm.free) != {} ==>
                got > 0 && Full(old(pmm.free), first, got, pages) && pmm.free == old(pmm.free) - PageRun(first, got)
    {
      ghost var free := pmm.free;
      var ok;
      ok, first := FirstPage();
      if ok {
        got := GrowRun(pages, first, free);
      } else {
        got := 0;
      }
    }

    /** The walk to the tail of a list that is not empty. */
    method FindTail(ghost bs: seq<Block>) returns (tail: nat)
      requires Linked(mem, heapHead, bs) && bs != []
      ensures tail == bs[|bs| - 1].addr
    {
      tail := heapHead;
      ghost var k := 0;
      assert HeaderOk(mem, bs, 0);
      while mem[tail].next != 0
        invariant 0 <= k < |bs| && tail == bs[k].addr && HeaderOk(mem, bs, k)
        decreases |bs| - k
      {
        tail := mem[tail].next;
        k := k + 1;
        assert HeaderOk(mem, bs, k);
      }
    }

    /** Write the new block's header and link it behind the tail. */
    method AppendBlock(block: nat, size: nat, ghost bs: seq<Block>)
      requires Linked(mem, heapHead, bs) && Ordered(bs + [Block(block, size, true)]) && block > 0
      modifies this`mem, this`heapHead
      ensures Linked(mem, heapHead, bs + [Block(block, size, true)])
    {
      ghost var b := Block(block, size, true);
      OrderedIsDistinct(bs + [b]);
      AppendLinked(mem, heapHead, bs, b);
      if heapHead == 0 {
        assert bs == [];
        mem := mem[block := Header(size, true, 0, 0)];
        heapHead := block;
      } else {
        var tail := FindTail(bs);
        mem := mem[block := Header(size, true, 0, 0)];
        mem := mem[tail := mem[tail].(next := block)];
        mem := mem[block := mem[block].(prev := tail)];
      }
    }

    /** `heap_extend` in memory, for pages just taken. */
    method AddRegion(first: nat, got: nat, ghost s: Sys) returns (block: nat)
      requires Linked(mem, heapHead, s.blocks) && freeBytes == s.freeBytes
      requires first > 0 && got > 0 && Ordered(s.blocks + [NewBlock(first, got)])
      modifies this`mem, this`heapHead, this`freeBytes
      ensures block == PAGE_SIZE * first
      ensures Linked(mem, heapHead, s.blocks + [NewBlock(first, got)])
      ensures freeBytes == Wrap32(s.freeBytes + NewBlock(first, got).size)
    {
      block := PAGE_SIZE * first;
      AppendBlock(block, got * PAGE_SIZE - HEADER, s.blocks);
      freeBytes := Wrap32(freeBytes + (got * PAGE_SIZE - HEADER));
    }

    /** `heap_extend` on a state where the new block always comes last; 0 when no page is left. */
    method GrowHeap(pages: nat, ghost s: Sys) returns (block: nat, ghost first: nat, ghost got: nat)
      requires Represents(s) && 0 !in s.free && GrowsUpward(s, pages)
      modifies this`mem, this`heapHead, this`freeBytes, pmm, pmm.bitmap
      ensures if s.free == {} then block == 0 && Represents(s)
              else Full(s.free, first, got, pages) && block == PAGE_SIZE * first && Represents(ExtendBy(s, first, got))
    {
      var start, count := TakePages(pages);
      first, got := start, count;
      if count == 0 {
        return 0, first, got;
      }
      block := AddRegion(start, count, s);
    }

    /** `heap_extend`: 0 when no page is left. */
    method HeapExtend(pages: nat) returns (block: nat)
      requires Valid()
      modifies this, pmm, pmm.bitmap
      ensures Valid()
      ensures old(sys.free) == {} ==> block == 0 && sys == old(sys)
      ensures old(sys.free) != {} ==> sys == Extend(old(sys), pages) && block == PAGE_SIZE * Lowest(old(sys.free)) > 0
    {
      ghost var first, got;
      AlwaysUpward(sys, pages);
      block, first, got := GrowHeap(pages, sys);
      if block != 0 {
        ExtendFacts(sys, pages, first, got);
        sys := ExtendBy(sys, first, got);
      }
    }

    method HeapInit()
      requires pmm.Valid() && 0 !in pmm.free
      modifies this, pmm, pmm.bitmap
      ensures Valid() && sys == Initial(old(pmm.free))
    {
      heapHead, usedBytes, freeBytes := 0, 0, 0;
      sys := Sys([], 0, 0, 0, {}, pmm.free);
      assert Inv(sys);
      var block := HeapExtend(16);
    }

    /** The search loop of `kmalloc`: 0 when nothing fits. */
    method FindFit(size: nat, ghost bs: seq<Block>) returns (block: nat)
      requires Linked(mem, heapHead, bs)
      ensures block == AddrAt(bs, Fit(bs, size))
    {
      block := heapHead;
      ghost var k := 0;
      while block != 0
        invariant 0 <= k <= |bs| && block == AddrAt(bs, k)
        invariant forall j :: 0 <= j < k ==> !(bs[j].free && size <= bs[j].size)
        decreases |bs| - k
      {
        assert HeaderOk(mem, bs, k);
        if mem[block].free && mem[block].size >= size {
          FitIs(bs, size, k);
          return;
        }
        block := mem[block].next;
        k := k + 1;
      }
      FitIs(bs, size, k);
    }

    /** Link the leftover of the block in behind it, and mark the block used. */
    method SplitBlock(block: nat, size: nat, ghost bs: seq<Block>, ghost i: nat)
      requires Linked(mem, heapHead, bs) && Ordered(bs) && i < |bs| && bs[i].addr == block
      requires HEADER + MIN_SPLIT_SIZE + size <= bs[i].size
      modifies this`mem
      ensures Linked(mem, heapHead, Carve(bs, i, size))
    {
      assert HeaderOk(mem, bs, i);
      CarveLinked(mem, heapHead, bs, i, size);
      var remainder := block + HEADER + size;
      var next := mem[block].next;
      mem := mem[remainder := Header(mem[block].size - size - HEADER, true, next, block)];
      if next != 0 {
        assert HeaderOk(old(mem), bs, i + 1);
        mem := mem[next := mem[next].(prev := remainder)];
      }
      mem := mem[block := mem[block].(next := remainder)];
      assert mem == InsertMem(old(mem), bs, i, Pieces(bs[i], size)[1]);
      mem := mem[block := mem[block].(size := size, free := false)];
    }

    /** Split off the leftover if it is worth a header, and mark the block used. */
    method CarveBlock(block: nat, size: nat, ghost bs: seq<Block>, ghost i: nat) returns (got: nat)
      requires Linked(mem, heapHead, bs) && Ordered(bs) && i < |bs| && bs[i].addr == block && size <= bs[i].size
      modifies this`mem
      ensures got == Pieces(bs[i], size)[0].size && Linked(mem, heapHead, Carve(bs, i, size))
    {
      assert HeaderOk(mem, bs, i);
      if mem[block].size >= size + HEADER + MIN_SPLIT_SIZE {
        SplitBlock(block, size, bs, i);
        got := size;
      } else {
        got := mem[block].size;
        OrderedIsDistinct(bs);
        UpdateLinked(mem, heapHead, bs, i, got, false);
        assert bs[i := Block(block, got, false)] == Carve(bs, i, size);
        mem := mem[block := mem[block].(free := false)];
      }
    }

    method UseBlock(block: nat, size: nat, ghost s: Sys, ghost i: nat, ghost grew: bool) returns (ptr: nat)
      requires Represents(s) && Ordered(s.blocks) && i < |s.blocks| && s.blocks[i].addr == block && size <= s.blocks[i].size
      modifies this`mem, this`freeBytes, this`usedBytes
      ensures var r := TakeBlock(s, i, size, grew); ptr == r.ptr && Represents(r.sys)
    {
      var got := CarveBlock(block, size, s.blocks, i);
      freeBytes := Wrap32(freeBytes - got);
      usedBytes := Wrap32(usedBytes + got);
      ptr := block + HEADER;
    }

    /** Grow the heap for a request that nothing fits: 0 when no page is left or the pages were
        not enough. */
    method GrowFor(size: U32, ghost s: Sys) returns (block: nat)
      requires Represents(s) && Inv(s)
      modifies this`mem, this`heapHead, this`freeBytes, pmm, pmm.bitmap
      ensures s.free == {} ==> block == 0 && Represents(s)
      ensures s.free != {} ==>
                var t, n := Extend(s, NeedPages(size)), |s.blocks|;
                && Represents(t) && |t.blocks| == n + 1
                && block == if t.blocks[n].size < size then 0 else t.blocks[n].addr
    {
      var needPages := Wrap32(size + HEADER + PAGE_SIZE - 1) / PAGE_SIZE;
      if needPages < 1 {
        needPages := 1;
      }
      OnePageAtLeast(s, NeedPages(size));
      AlwaysUpward(s, needPages);
      ghost var first, got;
      block, first, got := GrowHeap(needPages, s);
      if block != 0 {
        ExtendFacts(s, needPages, first, got);
        ghost var t := Extend(s, NeedPages(size));
        assert t == ExtendBy(s, first, got);
        assert HeaderOk(mem, t.blocks, |s.blocks|);
        if mem[block].size < size {
          block := 0;
        }
      }
    }

    /** `kmalloc` when the heap has to grow. */
    method AllocateGrowing(request: U32, size: U32, ghost s: Sys) returns (ptr: nat)
      requires Represents(s) && Inv(s)
      requires request > 0 && size == AlignUp(request) && Fit(s.blocks, size) == |s.blocks|
      modifies this`mem, this`heapHead, this`freeBytes, this`usedBytes, pmm, pmm.bitmap
      ensures var r := Malloc(s, request); ptr == r.ptr && Represents(r.sys)
    {
      GrowingCases(s, request, size);
      var block := GrowFor(size, s);
      if block == 0 {
        return 0;
      }
      ptr := UseBlock(block, size, Extend(s, NeedPages(size)), |s.blocks|, true);
    }

    /** `kmalloc` when a block fits. */
    method AllocateHere(block: nat, request: U32, size: U32, ghost s: Sys) returns (ptr: nat)
      requires Represents(s) && Ordered(s.blocks) && request > 0 && size == AlignUp(request)
      requires var i := Fit(s.blocks, size); i < |s.blocks| && s.blocks[i].addr == block
      modifies this`mem, this`freeBytes, this`usedBytes
      ensures var r := Malloc(s, request); ptr == r.ptr && Represents(r.sys)
    {
      ptr := UseBlock(block, size, s, Fit(s.blocks, size), false);
    }

    method Kmalloc(request: U32) returns (ptr: nat)
      requires Valid()
      modifies this, pmm, pmm.bitmap
      ensures Valid()
      ensures var r := Malloc(old(sys), request); ptr == r.ptr && sys == r.sys
    {
      if request == 0 {
        return 0;
      }
      ghost var s := sys;
      MallocKeeps(s, request);
      var size := AlignUp(request);
      var block := FindFit(size, s.blocks);
      if block == 0 {
        ptr := AllocateGrowing(request, size, s);
      } else {
        ptr := AllocateHere(block, request, size, s);
      }
      sys := Malloc(s, request).sys;
    }

    /** `higher` swallowed by `lower`. */
    method JoinBlocks(lower: nat, higher: nat, ghost bs: seq<Block>, ghost k: nat)
      requires Linked(mem, heapHead, bs) && Ordered(bs) && k + 1 < |bs| && bs[k].addr == lower && bs[k + 1].addr == higher
      modifies this`mem
      ensures Linked(mem, heapHead, Merge(bs, k))
    {
      MergeLinked(mem, heapHead, bs, k);
      assert End(bs[k]) <= higher;
      mem := mem[lower := mem[lower].(size := mem[lower].size + HEADER + mem[higher].size)];
      var next := mem[higher].next;
      mem := mem[lower := mem[lower].(next := next)];
      assert HeaderOk(old(mem), bs, k + 1);
      if next != 0 {
        assert HeaderOk(old(mem), bs, k + 2);
        mem := mem[next := mem[next].(prev := lower)];
      }
    }

    /** Merge `block` with one neighbour, if that is free and touches it. */
    method TryMergeBlock(block: nat, neighbor: nat, neighborIsNext: bool, ghost bs: seq<Block>, ghost i: nat)
      requires Linked(mem, heapHead, bs) && Ordered(bs) && i < |bs| && bs[i].addr == block && bs[i].free
      requires neighbor == AddrAt(bs, if neighborIsNext then i + 1 else i - 1)
      modifies this`mem
      ensures Linked(mem, heapHead, TryMerge(bs, if neighborIsNext then i else i as int - 1))
    {
      if neighbor == 0 {
        return;
      }
      ghost var k := if neighborIsNext then i else i - 1;
      assert HeaderOk(mem, bs, k) && HeaderOk(mem, bs, k + 1);
      if !mem[neighbor].free {
        return;
      }
      var lower := if neighborIsNext then block else neighbor;
      var higher := if neighborIsNext then neighbor else block;
      var lowerEnd := lower + HEADER + mem[lower].size;
      if lowerEnd != higher {
        return;
      }
      JoinBlocks(lower, higher, bs, k);
    }

    /** Both merges of `kfree`, after the block has been marked free. */
    method MergeBoth(block: nat, ghost bs: seq<Block>, ghost i: nat, ghost pages: PageSet)
      requires Linked(mem, heapHead, bs) && Ordered(bs) && Aligned(bs) && Tiles(bs, pages)
      requires i < |bs| && bs[i].addr == block && bs[i].free
      modifies this`mem
      ensures Linked(mem, heapHead, TryMerge(TryMerge(bs, i), i as int - 1))
    {
      assert HeaderOk(mem, bs, i);
      TryMergeBlock(block, mem[block].next, true, bs, i);
      ghost var two := TryMerge(bs, i);
      TryMergeKeeps(bs, i, pages);
      assert two[i].addr == block && two[i].free;
      assert HeaderOk(mem, two, i);
      TryMergeBlock(block, mem[block].prev, false, two, i);
    }

    /** The flag and the counters. */
    method MarkFree(block: nat, ghost s: Sys, ghost i: nat)
      requires Represents(s) && Inv(s) && i < |s.blocks| && s.blocks[i].addr == block && !s.blocks[i].free
      modifies this`mem, this`usedBytes, this`freeBytes
      ensures Linked(mem, heapHead, s.blocks[i := s.blocks[i].(free := true)])
      ensures usedBytes == Wrap32(s.used - s.blocks[i].size) && freeBytes == Wrap32(s.freeBytes + s.blocks[i].size)
    {
      FreeFlag(s, i, mem, heapHead);
      mem := mem[block := mem[block].(free := true)];
      usedBytes := Wrap32(usedBytes - mem[block].size);
      freeBytes := Wrap32(freeBytes + mem[block].size);
    }

    /** `kfree` in memory: the flag, the counters and both merges. */
    method ReleaseBlock(block: nat, ghost s: Sys, ghost i: nat)
      requires Represents(s) && Inv(s) && i < |s.blocks| && s.blocks[i].addr == block && !s.blocks[i].free
      modifies this`mem, this`usedBytes, this`freeBytes
      ensures Linked(mem, heapHead, Release(s.blocks, i))
      ensures usedBytes == Wrap32(s.used - s.blocks[i].size) && freeBytes == Wrap32(s.freeBytes + s.blocks[i].size)
    {
      FreeFlag(s, i, mem, heapHead);
      MarkFree(block, s, i);
      MergeBoth(block, s.blocks[i := s.blocks[i].(free := true)], i, s.pages);
    }

    /** `kfree` of null or of a live pointer. */
    method Kfree(ptr: nat)
      requires Valid() && (ptr == 0 || Live(sys, ptr))
      modifies this
      ensures Valid() && sys == Free(old(sys), ptr)
    {
      if ptr == 0 {
        return;
      }
      ghost var s := sys;
      FreeKeeps(s, ptr);
      FreeLive(ptr, s);
      sys := Free(s, ptr);
    }

    method FreeLive(ptr: nat, ghost s: Sys)
      requires Represents(s) && Inv(s) && ptr != 0 && Live(s, ptr)
      modifies this`mem, this`usedBytes, this`freeBytes
      ensures Represents(Free(s, ptr))
    {
      var block := ptr - HEADER;
      ReleaseBlock(block, s, IndexOf(s.blocks, ptr));
    }
  }

  lemma FreeFlag(s: Sys, i: nat, mem: Memory, head: nat)
    requires Inv(s) && Linked(mem, head, s.blocks) && i < |s.blocks| && !s.blocks[i].free
    ensures var a, one := s.blocks[i].addr, s.blocks[i := s.blocks[i].(free := true)];
            && a in mem && mem[a].size == s.blocks[i].size
            && Linked(mem[a := mem[a].(free := true)], head, one)
            && Ordered(one) && Aligned(one) && Tiles(one, s.pages)
  {
    assert HeaderOk(mem, s.blocks, i);
    OrderedIsDistinct(s.blocks);
    UpdateLinked(mem, head, s.blocks, i, s.blocks[i].size, true);
    SetFreeKeeps(s.blocks, i, 0);
    var one := s.blocks[i := s.blocks[i].(free := true)];
    forall a: int ensures Covered(one, a) <==> a / PAGE_SIZE in s.pages {
      SetFreeKeeps(s.blocks, i, a);
      assert Covered(s.blocks, a) <==> a / PAGE_SIZE in s.pages;
    }
  }

  /** What `Malloc` comes to when nothing fits. */
  lemma GrowingCases(s: Sys, request: U32, size: U32)
    requires Inv(s) && request > 0 && size == AlignUp(request) && Fit(s.blocks, size) == |s.blocks|
    ensures s.free == {} ==> Malloc(s, request) == Allocated(s, 0, false)
    ensures s.free != {} ==>
              var t, n := Extend(s, NeedPages(size)), |s.blocks|;
              && |t.blocks| == n + 1 && Ordered(t.blocks)
              && (if t.blocks[n].size < size then Malloc(s, request) == Allocated(t, 0, true)
                  else Malloc(s, request) == TakeBlock(t, n, size, true) && Inv(TakeBlock(t, n, size, true).sys))
  {
    MallocKeeps(s, request);
    if s.free != {} {
      ExtendShape(s, NeedPages(size));
    }
  }

  lemma OnePageAtLeast(s: Sys, pages: nat)
    ensures s.free != {} ==>
              && Extend(s, if pages < 1 then 1 else pages) == Extend(s, pages)
              && Extend(s, pages).blocks[|s.blocks|].addr == PAGE_SIZE * Lowest(s.free)
  {
  }

  lemma RunUnique(free: PageSet, first: nat, got: nat, n: nat)
    requires got <= n && (forall q :: first <= q < first + got ==> q in free)
    requires got == n || first + got !in free
    ensures RunLength(free, first, n) == got
  {
    var k := RunLength(free, first, n);
    assert k < got ==> first + k in free;
    assert got < k ==> first + got in free;
  }

  lemma ExtendFacts(s: Sys, pages: nat, first: nat, got: nat)
    requires Inv(s) && Full(s.free, first, got, pages)
    ensures s.free != {} && Extend(s, pages) == ExtendBy(s, first, got) && Inv(ExtendBy(s, first, got))
    ensures Ordered(s.blocks + [NewBlock(first, got)])
  {
    RunDone(s.free, first, got, pages);
    ExtendKeeps(s, pages);
  }

  /** Any growth comes after every block. */
  ghost predicate GrowsUpward(s: Sys, pages: nat) {
    forall first: nat, got: nat :: Full(s.free, first, got, pages) ==> Ordered(s.blocks + [NewBlock(first, got)])
  }

  lemma AlwaysUpward(s: Sys, pages: nat)
    requires Inv(s)
    ensures GrowsUpward(s, pages)
  {
    forall first: nat, got: nat | Full(s.free, first, got, pages)
      ensures Ordered(s.blocks + [NewBlock(first, got)])
    {
      ExtendFacts(s, pages, first, got);
    }
  }

  /** The run is as long as it can be, up to `pages`. */
  ghost predicate Full(free: PageSet, first: nat, got: nat, pages: nat) {
    Taken(free, first, got) && (got <= pages || got == 1) && (got >= pages || first + got !in free)
  }

  lemma RunDone(free: PageSet, first: nat, got: nat, pages: nat)
    requires Full(free, first, got, pages)
    ensures free != {} && Growth(free, pages) == (first, got)
  {
    RunUnique(free, first, got, if pages < 1 then 1 else pages);
  }

  /** The `got` lowest pages from `first` on, consecutive, have been taken. */
  ghost predicate Taken(free: PageSet, first: nat, got: nat) {
    && first == Lowest(free) && got > 0 && first + got <= MAX_PAGES && first > 0
    && forall q :: first <= q < first + got ==> q in free
  }

  lemma PutBack(rest: PageSet, p: int)
    requires p in rest
    ensures rest - {p} + {p} == rest
  {
  }

  lemma RunOne(first: nat)
    requires first < MAX_PAGES
    ensures PageRun(first, 1) == {first as int}
  {
  }

  lemma RunSucc(first: nat, got: nat)
    requires first + got < MAX_PAGES
    ensures PageRun(first, got + 1) == PageRun(first, got) + {first + got}
  {
  }

  /** What the next page is, once a run of `got` pages from the lowest has been taken. */
  lemma RunGrows(free: PageSet, first: nat, got: nat)
    requires Taken(free, first, got)
    ensures var rest: PageSet := free - PageRun(first, got);
            if first + got in free then
              && Taken(free, first, got + 1) && Lowest(rest) == first + got
              && rest - {first + got} == free - PageRun(first, got + 1)
            else Lowest(rest) != first + got || Lowest(rest) == MAX_PAGES
  {
    var rest: PageSet := free - PageRun(first, got);
    if first + got in free {
      assert first + got in rest;
      forall q | q in rest ensures first + got <= q {
        assert first <= q;
      }
      RunSucc(first, got);
    }
  }

  lemma FitIs(bs: seq<Block>, size: nat, k: nat)
    requires k <= |bs| && (k < |bs| ==> bs[k].free && size <= bs[k].size)
    requires forall j :: 0 <= j < k ==> !(bs[j].free && size <= bs[j].size)
    ensures Fit(bs, size) == k
  {
  }
}
